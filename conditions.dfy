/** `MDBTools#compile_conditions`: a hash from column name to search value
    becomes the text of a WHERE clause, one fragment per pair in ascending
    column-name order, joined with " AND ". Column names and values enter as
    the strings their `to_s` gives; the optional block is a function of those
    two strings whose result is taken as a string. */
module Conditions {
  import opened Wrappers
  import opened RubyText
  import opened RubyHash

  /** String#<=> on the byte strings of the names: a comes strictly before b. */
  predicate Below(a: string, b: string)
    decreases |a|
  {
    if a == [] then b != []
    else if b == [] then false
    else a[0] < b[0] || (a[0] == b[0] && Below(a[1..], b[1..]))
  }

  lemma {:induction false} BelowIrreflexive(a: string)
    ensures !Below(a, a)
    decreases |a|
  {
    if a != [] {
      BelowIrreflexive(a[1..]);
    }
  }

  lemma {:induction false} BelowAsymmetric(a: string, b: string)
    requires Below(a, b)
    ensures !Below(b, a)
    decreases |a|
  {
    if a != [] && b != [] && a[0] == b[0] {
      BelowAsymmetric(a[1..], b[1..]);
    }
  }

  lemma {:induction false} BelowTransitive(a: string, b: string, c: string)
    requires Below(a, b) && Below(b, c)
    ensures Below(a, c)
    decreases |a|
  {
    if a != [] && a[0] == b[0] && b[0] == c[0] {
      BelowTransitive(a[1..], b[1..], c[1..]);
    }
  }

  /** Two different names are always ordered one way or the other. */
  lemma {:induction false} BelowTotal(a: string, b: string)
    requires a != b
    ensures Below(a, b) || Below(b, a)
    decreases |a|
  {
    if a != [] && b != [] && a[0] == b[0] {
      assert a == [a[0]] + a[1..] && b == [b[0]] + b[1..];
      BelowTotal(a[1..], b[1..]);
    }
  }

  type Pair = Entry<string, string>

  /** Strictly ascending by column name. */
  predicate Ascending(ps: seq<Pair>)
    decreases |ps|
  {
    |ps| < 2 || (Below(ps[0].key, ps[1].key) && Ascending(ps[1..]))
  }

  /** Every pair after the first of an ascending list has a larger name. */
  lemma {:induction false} AscendingHead(ps: seq<Pair>, p: Pair)
    requires Ascending(ps) && |ps| > 0 && p in ps[1..]
    ensures Below(ps[0].key, p.key)
    decreases |ps|
  {
    if p == ps[1] {
    } else {
      assert p in ps[1..][1..];
      AscendingHead(ps[1..], p);
      BelowTransitive(ps[0].key, ps[1].key, p.key);
    }
  }

  /** Sorting places a pair among pairs already in ascending order. */
  function Insert(p: Pair, ps: seq<Pair>): (r: seq<Pair>)
    ensures multiset(r) == multiset(ps) + multiset{p}
    decreases |ps|
  {
    if ps == [] || Below(p.key, ps[0].key) then [p] + ps
    else
      assert ps == [ps[0]] + ps[1..];
      [ps[0]] + Insert(p, ps[1..])
  }

  lemma {:induction false} InsertAscending(p: Pair, ps: seq<Pair>)
    requires Ascending(ps)
    requires forall q :: q in ps ==> q.key != p.key
    ensures Ascending(Insert(p, ps))
    decreases |ps|
  {
    if ps == [] || Below(p.key, ps[0].key) {
    } else {
      BelowTotal(p.key, ps[0].key);
      InsertAscending(p, ps[1..]);
      var rest := Insert(p, ps[1..]);
      assert rest[0] in multiset(ps[1..]) + multiset{p};
      if rest[0] != p {
        assert rest[0] in ps[1..];
        AscendingHead(ps, rest[0]);
      }
    }
  }

  /** `sort_by { |k, v| k.to_s }` on the pairs of the hash. */
  function SortByName(ps: seq<Pair>): (r: seq<Pair>)
    ensures multiset(r) == multiset(ps)
    decreases |ps|
  {
    if ps == [] then []
    else
      assert ps == [ps[0]] + ps[1..];
      Insert(ps[0], SortByName(ps[1..]))
  }

  lemma KeyInKeys(h: seq<Pair>, p: Pair)
    requires p in h
    ensures p.key in Keys(h)
    decreases |h|
  {
    if p != h[0] {
      KeyInKeys(h[1..], p);
    }
  }

  /** Because the names of a hash are unique, the sorted pairs are in
      strictly ascending order. */
  lemma {:induction false} SortByNameAscending(h: Hash<string, string>)
    ensures Ascending(SortByName(h))
    decreases |h|
  {
    if h != [] {
      SortByNameAscending(h[1..]);
      forall q | q in SortByName(h[1..]) ensures q.key != h[0].key {
        assert q in multiset(h[1..]);
        KeyInKeys(h[1..], q);
      }
      InsertAscending(h[0], SortByName(h[1..]));
    }
  }

  /** Two ascending arrangements of the same pairs start alike. */
  lemma AscendingSameHead(xs: seq<Pair>, ys: seq<Pair>)
    requires Ascending(xs) && Ascending(ys) && multiset(xs) == multiset(ys) && xs != []
    ensures ys != [] && xs[0] == ys[0]
  {
    assert |ys| == |xs|;
    assert xs[0] in multiset(ys) && ys[0] in multiset(xs);
    if xs[0] != ys[0] {
      assert xs[0] in ys[1..] by { assert ys == [ys[0]] + ys[1..]; }
      assert ys[0] in xs[1..] by { assert xs == [xs[0]] + xs[1..]; }
      AscendingHead(ys, xs[0]);
      AscendingHead(xs, ys[0]);
      BelowAsymmetric(xs[0].key, ys[0].key);
    }
  }

  /** There is only one ascending arrangement of a collection of pairs. */
  lemma {:induction false} AscendingUnique(xs: seq<Pair>, ys: seq<Pair>)
    requires Ascending(xs) && Ascending(ys) && multiset(xs) == multiset(ys)
    ensures xs == ys
    decreases |xs|
  {
    if xs != [] {
      AscendingSameHead(xs, ys);
      assert xs == [xs[0]] + xs[1..] && ys == [ys[0]] + ys[1..];
      assert multiset(xs[1..]) == multiset(xs) - multiset{xs[0]};
      assert multiset(ys[1..]) == multiset(ys) - multiset{ys[0]};
      AscendingUnique(xs[1..], ys[1..]);
    }
  }

  /** The block `{ |name, value| ... }`, when one is given: it sees the
      `to_s` strings of the name and the value and gives the fragment's
      text. */
  type Block = Option<(string, string) -> string>

  /** One WHERE fragment: the block's result, or the LIKE test: the name,
      then ` like '%`, then the value exactly as given (a quote in it is not
      escaped), then `%'`. */
  function Fragment(p: Pair, block: Block): (r: string)
    ensures block.Some? ==> r == block.value(p.key, p.value)
    ensures block.None? ==>
      |r| == |p.key| + 8 + |p.value| + 2 &&
      r[..|p.key|] == p.key &&
      r[|p.key|..|p.key| + 8] == " like '%" &&
      r[|p.key| + 8..|r| - 2] == p.value &&
      r[|r| - 2..] == "%'"
  {
    match block
    case None =>
      var r := p.key + " like '%" + p.value + "%'";
      assert r == p.key + (" like '%" + (p.value + "%'"));
      r
    case Some(f) => f(p.key, p.value)
  }

  /** A value holding a quote goes into the LIKE test as it is. */
  lemma FragmentNoEscaping()
    ensures Fragment(Entry("n", "O'B"), None) == "n like '%O'B%'"
  {
  }

  /** The fragments of a list of pairs, in the list's order. */
  function Fragments(ps: seq<Pair>, block: Block): (r: seq<string>)
    ensures |r| == |ps|
    ensures forall i :: 0 <= i < |ps| ==> r[i] == Fragment(ps[i], block)
  {
    seq(|ps|, i requires 0 <= i < |ps| => Fragment(ps[i], block))
  }

  /** `compile_conditions(conditions_hash, &block)`. */
  function CompileConditions(h: Hash<string, string>, block: Block): (r: string)
    ensures h == [] ==> r == ""
  {
    Join(Fragments(SortByName(h), block), " AND ")
  }

  /** The conditions text is the fragments of the pairs in ascending name
      order, joined with " AND ": whatever ascending arrangement of the
      hash's pairs is given, that is the one used. */
  lemma ConditionsInNameOrder(h: Hash<string, string>, ps: seq<Pair>, block: Block)
    requires Ascending(ps) && multiset(ps) == multiset(h)
    ensures CompileConditions(h, block) == Join(Fragments(ps, block), " AND ")
  {
    SortByNameAscending(h);
    AscendingUnique(SortByName(h), ps);
  }

  /** The insertion order of the hash does not matter: two hashes with the
      same pairs give the same text. */
  lemma InsertionOrderIrrelevant(h1: Hash<string, string>, h2: Hash<string, string>, block: Block)
    requires multiset(h1) == multiset(h2)
    ensures CompileConditions(h1, block) == CompileConditions(h2, block)
  {
    SortByNameAscending(h1);
    ConditionsInNameOrder(h2, SortByName(h1), block);
  }

  /** The example of the documentation comment: first name Summer and last
      name Roberts, given in either order. */
  lemma DocumentedExample(h: Hash<string, string>)
    requires multiset(h) == multiset{Entry("first_name", "Summer"), Entry("last_name", "Roberts")}
    ensures CompileConditions(h, None) == "first_name like '%Summer%'" + " AND " + "last_name like '%Roberts%'"
  {
    var ps := [Entry("first_name", "Summer"), Entry("last_name", "Roberts")];
    ExampleAscending();
    ConditionsInNameOrder(h, ps, None);
    ExampleJoined();
  }

  /** "first_name" sorts before "last_name". */
  lemma ExampleAscending()
    ensures Ascending([Entry("first_name", "Summer"), Entry("last_name", "Roberts")])
  {
    var ps := [Entry("first_name", "Summer"), Entry("last_name", "Roberts")];
    assert ps[0].key[0] == 'f' && ps[1].key[0] == 'l';
    assert Below(ps[0].key, ps[1].key);
    assert ps[1..][1..] == [];
  }

  /** The fragments of the example, joined. */
  lemma ExampleJoined()
    ensures Join(Fragments([Entry("first_name", "Summer"), Entry("last_name", "Roberts")], None), " AND ")
      == "first_name like '%Summer%'" + " AND " + "last_name like '%Roberts%'"
  {
    var ps := [Entry("first_name", "Summer"), Entry("last_name", "Roberts")];
    var fs := Fragments(ps, None);
    assert fs[0] == "first_name like '%Summer%'";
    assert fs[1] == "last_name like '%Roberts%'";
    assert fs[1..] == [fs[1]];
    JoinCons(fs[0], fs[1..], " AND ");
    assert fs == [fs[0]] + fs[1..];
  }

  /** One fragment per pair: with a single pair the text is its fragment
      alone, with no " AND ". */
  lemma SinglePair(h: Hash<string, string>, block: Block)
    requires |h| == 1
    ensures CompileConditions(h, block) == Fragment(h[0], block)
  {
    ConditionsInNameOrder(h, h, block);
  }
}
