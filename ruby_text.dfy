/** The Ruby String operations that MDBTools relies on, written out so that
    their edge cases are explicit: String#chomp, String#split with a literal
    separator (trailing empty fields dropped), Array#join, unanchored substring
    search, and the in-place `gsub!(/\r\n/, ' ')`. */
module RubyText {

  /** String#chomp with the default record separator: removes one trailing
      "\r\n", "\n" or "\r", whichever is there. */
  function Chomp(s: string): (r: string)
    ensures r <= s
    ensures s == r || s == r + "\n" || s == r + "\r" || s == r + "\r\n"
    ensures |s| > 0 && (s[|s| - 1] == '\n' || s[|s| - 1] == '\r') ==> |r| < |s|
    ensures |s| >= 2 && s[|s| - 2..] == "\r\n" ==> r == s[..|s| - 2]
  {
    if |s| >= 2 && s[|s| - 2..] == "\r\n" then s[..|s| - 2]
    else if |s| >= 1 && (s[|s| - 1] == '\n' || s[|s| - 1] == '\r') then s[..|s| - 1]
    else s
  }

  /** Chomp undoes the line feed a pipe appends to a line, unless the line
      itself ends in a carriage return (then the pair goes together). */
  lemma ChompRemovesAppendedLineFeed(s: string)
    requires |s| == 0 || s[|s| - 1] != '\r'
    ensures Chomp(s + "\n") == s
  {
    var t := s + "\n";
    assert t[..|t| - 1] == s;
    if |t| >= 2 {
      assert t[|t| - 2] == s[|s| - 1];
    }
  }

  /** `col.chomp` mapped over a token list. */
  function ChompAll(xs: seq<string>): (r: seq<string>)
    ensures |r| == |xs|
    ensures forall i :: 0 <= i < |xs| ==> r[i] == Chomp(xs[i])
  {
    seq(|xs|, i requires 0 <= i < |xs| => Chomp(xs[i]))
  }

  /** Array#delete: every element equal to x is removed, order kept. */
  function DeleteAll(xs: seq<string>, x: string): (r: seq<string>)
    ensures |r| <= |xs|
    ensures x !in r
  {
    if xs == [] then []
    else
      assert xs == [xs[0]] + xs[1..];
      if xs[0] == x then DeleteAll(xs[1..], x)
      else [xs[0]] + DeleteAll(xs[1..], x)
  }

  /** What Array#delete leaves: exactly the elements different from x, each
      as often as it occurred. */
  lemma DeleteAllKeepsOthers(xs: seq<string>, x: string)
    ensures x !in DeleteAll(xs, x)
    ensures forall y :: y in DeleteAll(xs, x) <==> y in xs && y != x
    ensures multiset(DeleteAll(xs, x)) == multiset(xs)[x := 0]
    ensures |DeleteAll(xs, x)| == |xs| - multiset(xs)[x]
  {
    var d := DeleteAll(xs, x);
    DeleteAllMultiset(xs, x);
    forall y ensures y in d <==> y in xs && y != x {
      assert y in d <==> multiset(d)[y] > 0;
      assert y in xs <==> multiset(xs)[y] > 0;
    }
    var m := multiset(xs);
    assert m == m[x := 0] + multiset{}[x := m[x]];
  }

  lemma {:induction false} DeleteAllMultiset(xs: seq<string>, x: string)
    ensures multiset(DeleteAll(xs, x)) == multiset(xs)[x := 0]
    decreases |xs|
  {
    if xs != [] {
      DeleteAllMultiset(xs[1..], x);
      assert xs == [xs[0]] + xs[1..];
      assert multiset(xs) == multiset{xs[0]} + multiset(xs[1..]);
    }
  }

  /** Array#delete works element by element, keeping the order: deleting
      from a concatenation deletes from each part. */
  lemma {:induction false} DeleteAllAppend(xs: seq<string>, ys: seq<string>, x: string)
    ensures DeleteAll(xs + ys, x) == DeleteAll(xs, x) + DeleteAll(ys, x)
    decreases |xs|
  {
    if xs == [] {
      assert xs + ys == ys;
    } else {
      assert (xs + ys)[0] == xs[0] && (xs + ys)[1..] == xs[1..] + ys;
      DeleteAllAppend(xs[1..], ys, x);
    }
  }

  predicate StartsWith(s: string, t: string) {
    |t| <= |s| && s[..|t|] == t
  }

  /** Unanchored search: t occurs somewhere in s (the empty string occurs
      everywhere, as the empty regular expression matches everywhere). */
  predicate Contains(s: string, t: string)
    decreases |s|
  {
    StartsWith(s, t) || (|s| > 0 && Contains(s[1..], t))
  }

  /** Array#join with a separator. */
  function Join(xs: seq<string>, sep: string): (r: string)
    ensures |xs| == 0 ==> r == ""
    ensures |xs| > 0 ==> StartsWith(r, xs[0])
  {
    if |xs| == 0 then ""
    else if |xs| == 1 then xs[0]
    else xs[0] + sep + Join(xs[1..], sep)
  }

  /** The fields of cur + s, where cur is the part of the current field
      already scanned: occurrences of sep are searched left to right without
      overlap, and empty fields are kept. */
  function SplitFrom(s: string, sep: string, cur: string): (r: seq<string>)
    requires |sep| > 0
    ensures |r| > 0
    decreases |s|
  {
    if |s| < |sep| then [cur + s]
    else if StartsWith(s, sep) then [cur] + SplitFrom(s[|sep|..], sep, "")
    else SplitFrom(s[1..], sep, cur + [s[0]])
  }

  /** Every field between occurrences of sep: the split before Ruby drops
      anything. Joining the fields back with the separator gives s again. */
  function SplitAll(s: string, sep: string): (r: seq<string>)
    requires |sep| > 0
    ensures |r| > 0
    ensures Join(r, sep) == s
  {
    JoinSplitFrom(s, sep, "");
    assert "" + s == s;
    SplitFrom(s, sep, "")
  }

  /** Join of a list with a first element put in front. */
  lemma JoinCons(x: string, xs: seq<string>, sep: string)
    ensures Join([x] + xs, sep) == if xs == [] then x else x + sep + Join(xs, sep)
  {
    assert ([x] + xs)[1..] == xs;
  }

  /** Joining the fields back with the separator gives the string again. */
  lemma {:induction false} JoinSplitFrom(s: string, sep: string, cur: string)
    requires |sep| > 0
    ensures Join(SplitFrom(s, sep, cur), sep) == cur + s
    decreases |s|
  {
    if |s| < |sep| {
    } else if StartsWith(s, sep) {
      JoinSplitFrom(s[|sep|..], sep, "");
      JoinAtSeparator(s, sep, cur);
    } else {
      JoinSplitFrom(s[1..], sep, cur + [s[0]]);
      assert cur + [s[0]] + s[1..] == cur + s;
    }
  }

  /** The step of JoinSplitFrom where s starts with the separator. */
  lemma JoinAtSeparator(s: string, sep: string, cur: string)
    requires 0 < |sep| <= |s| && StartsWith(s, sep)
    requires Join(SplitFrom(s[|sep|..], sep, ""), sep) == "" + s[|sep|..]
    ensures Join(SplitFrom(s, sep, cur), sep) == cur + s
  {
    var tail := s[|sep|..];
    var rest := SplitFrom(tail, sep, "");
    assert SplitFrom(s, sep, cur) == [cur] + rest;
    JoinCons(cur, rest, sep);
    assert rest != [];
    assert Join(rest, sep) == tail by {
      assert "" + tail == tail;
    }
    assert s == sep + tail by {
      assert s[..|sep|] == sep;
      assert s == s[..|sep|] + s[|sep|..];
    }
    assert cur + sep + tail == cur + (sep + tail);
  }

  /** t does not occur in s when it starts at no position of s. */
  lemma {:induction false} NotContains(s: string, t: string)
    requires forall j :: 0 <= j <= |s| ==> !StartsWith(s[j..], t)
    ensures !Contains(s, t)
    decreases |s|
  {
    assert s[0..] == s;
    if |s| > 0 {
      forall j | 0 <= j <= |s[1..]| ensures !StartsWith(s[1..][j..], t) {
        assert s[1..][j..] == s[j + 1..];
      }
      NotContains(s[1..], t);
    }
  }

  /** No occurrence of sep starts inside cur and runs on into s: the scan
      would have cut the field there. */
  ghost predicate NoSeparatorAcross(cur: string, s: string, sep: string) {
    forall j :: 0 <= j < |cur| ==> !StartsWith(cur[j..] + s, sep)
  }

  /** No field contains the separator. */
  lemma {:induction false} SplitFromAvoidsSeparator(s: string, sep: string, cur: string)
    requires |sep| > 0 && NoSeparatorAcross(cur, s, sep)
    ensures forall p :: p in SplitFrom(s, sep, cur) ==> !Contains(p, sep)
    decreases |s|
  {
    if |s| < |sep| {
      var p := cur + s;
      forall j | 0 <= j <= |p| ensures !StartsWith(p[j..], sep) {
        if j < |cur| {
          assert p[j..] == cur[j..] + s;
        } else {
          assert |p[j..]| < |sep|;
        }
      }
      NotContains(p, sep);
    } else if StartsWith(s, sep) {
      forall j | 0 <= j <= |cur| ensures !StartsWith(cur[j..], sep) {
        if j < |cur| && |cur[j..]| >= |sep| {
          assert (cur[j..] + s)[..|sep|] == cur[j..][..|sep|];
        }
      }
      NotContains(cur, sep);
      SplitFromAvoidsSeparator(s[|sep|..], sep, "");
    } else {
      NoSeparatorAcrossStep(cur, s, sep);
      SplitFromAvoidsSeparator(s[1..], sep, cur + [s[0]]);
    }
  }

  /** Scanning past a character where sep does not start keeps the scanned
      part free of an occurrence running on into the rest. */
  lemma NoSeparatorAcrossStep(cur: string, s: string, sep: string)
    requires |s| > 0 && !StartsWith(s, sep) && NoSeparatorAcross(cur, s, sep)
    ensures NoSeparatorAcross(cur + [s[0]], s[1..], sep)
  {
    var cur' := cur + [s[0]];
    forall j | 0 <= j < |cur'| ensures !StartsWith(cur'[j..] + s[1..], sep) {
      if j < |cur| {
        assert cur'[j..] + s[1..] == cur[j..] + s;
      } else {
        assert cur'[j..] + s[1..] == s;
      }
    }
  }

  /** A field ends at the first occurrence of sep: the field followed by all
      of sep but its last character holds no occurrence yet. */
  lemma FieldEndsAtFirst(cur: string, s: string, sep: string)
    requires |sep| > 0 && StartsWith(s, sep) && NoSeparatorAcross(cur, s, sep)
    ensures !Contains(cur + sep[..|sep| - 1], sep)
  {
    var p := cur + sep[..|sep| - 1];
    forall j | 0 <= j <= |p| ensures !StartsWith(p[j..], sep) {
      if j < |cur| && |p[j..]| >= |sep| {
        assert p[j..] == cur[j..] + sep[..|sep| - 1];
        assert s[..|sep|] == sep;
        assert p[j..][..|sep|] == (cur[j..] + s)[..|sep|];
      } else if j >= |cur| {
        assert |p[j..]| < |sep|;
      }
    }
    NotContains(p, sep);
  }

  /** Every field but the last, followed by all of sep but its last
      character, holds no occurrence of sep. */
  predicate EachFieldEndsAtFirst(r: seq<string>, sep: string)
    requires |sep| > 0
  {
    forall i :: 0 <= i < |r| - 1 ==> !Contains(r[i] + sep[..|sep| - 1], sep)
  }

  /** The scan takes the leftmost occurrence of sep: no field but the last,
      followed by all of sep but its last character, contains sep. For the
      overlapping "::" this puts a field's trailing ':' into the next
      field ("a:::b" gives "a" and ":b"). */
  lemma {:induction false} SplitFromLeftmost(s: string, sep: string, cur: string)
    requires |sep| > 0 && NoSeparatorAcross(cur, s, sep)
    ensures EachFieldEndsAtFirst(SplitFrom(s, sep, cur), sep)
    decreases |s|
  {
    if |s| < |sep| {
    } else if StartsWith(s, sep) {
      FieldEndsAtFirst(cur, s, sep);
      SplitFromLeftmost(s[|sep|..], sep, "");
      var rest := SplitFrom(s[|sep|..], sep, "");
      var r := SplitFrom(s, sep, cur);
      assert r == [cur] + rest;
      forall i | 0 <= i < |r| - 1 ensures !Contains(r[i] + sep[..|sep| - 1], sep) {
        if i > 0 {
          assert r[i] == rest[i - 1];
        }
      }
    } else {
      NoSeparatorAcrossStep(cur, s, sep);
      SplitFromLeftmost(s[1..], sep, cur + [s[0]]);
      assert SplitFrom(s, sep, cur) == SplitFrom(s[1..], sep, cur + [s[0]]);
    }
  }

  /** Each field of a split ends at the leftmost occurrence of sep after
      its start. */
  lemma SplitAllLeftmost(s: string, sep: string)
    requires |sep| > 0
    ensures EachFieldEndsAtFirst(SplitAll(s, sep), sep)
  {
    SplitFromLeftmost(s, sep, "");
  }

  /** With the overlapping "::", a colon before a separator stays in the
      field before it only if no separator starts there: "a:::b" splits
      into "a" and ":b". */
  lemma SplitOverlapExample()
    ensures SplitAll("a:::b", "::") == ["a", ":b"]
  {
    var s := "a:::b";
    var sep := "::";
    assert s[0] == 'a' && s[..2] != sep;
    assert s[1..] == ":::b" && s[1..][..2] == sep;
    var t := s[1..][2..];
    assert t == ":b" && t[1] == 'b' && t[..2] != sep;
    assert t[1..] == "b";
    assert |t[1..]| < |sep| && ("" + [t[0]]) + t[1..] == t;
    assert SplitFrom(t[1..], sep, "" + [t[0]]) == [t];
    assert SplitFrom(t, sep, "") == [t];
    assert "" + [s[0]] == "a";
    assert SplitFrom(s[1..], sep, "a") == ["a"] + [t];
  }

  /** String#split leaves the separator in no field, whatever its length
      (the delimiter "::" has two characters). */
  lemma SplitAvoidsSeparator(s: string, sep: string)
    requires |sep| > 0
    ensures forall p :: p in SplitAll(s, sep) ==> !Contains(p, sep)
    ensures forall p :: p in Split(s, sep) ==> !Contains(p, sep)
  {
    SplitFromAvoidsSeparator(s, sep, "");
    var all := SplitAll(s, sep);
    assert forall p :: p in Split(s, sep) ==> p in all;
  }

  /** Splitting on a one-character separator leaves that character in no
      field. */
  lemma {:induction false} SplitFromOnChar(s: string, c: char, cur: string)
    requires c !in cur
    ensures forall p :: p in SplitFrom(s, [c], cur) ==> c !in p
    decreases |s|
  {
    if |s| < 1 {
      assert s == [];
      assert cur + s == cur;
    } else if StartsWith(s, [c]) {
      SplitFromOnChar(s[1..], c, "");
    } else {
      assert s[0] != c;
      SplitFromOnChar(s[1..], c, cur + [s[0]]);
    }
  }

  lemma SplitAllOnChar(s: string, c: char)
    ensures forall p :: p in SplitAll(s, [c]) ==> c !in p
  {
    SplitFromOnChar(s, c, "");
  }

  /** Every character of every field comes from the input. */
  lemma {:induction false} SplitFromChars(s: string, sep: string, cur: string)
    requires |sep| > 0
    ensures forall p, ch :: p in SplitFrom(s, sep, cur) && ch in p ==> ch in cur || ch in s
    decreases |s|
  {
    if |s| < |sep| {
      assert forall ch :: ch in cur + s ==> ch in cur || ch in s;
    } else if StartsWith(s, sep) {
      SplitFromChars(s[|sep|..], sep, "");
      assert forall ch :: ch in s[|sep|..] ==> ch in s;
    } else {
      SplitFromChars(s[1..], sep, cur + [s[0]]);
      assert forall ch :: ch in s[1..] ==> ch in s;
      assert forall ch :: ch in cur + [s[0]] ==> ch in cur || ch == s[0];
    }
  }

  /** Ruby drops trailing empty fields from a split: the result is the
      longest prefix of xs that does not end in an empty string. */
  function DropTrailingEmpty(xs: seq<string>): (r: seq<string>)
    ensures r <= xs
    ensures |r| > 0 ==> r[|r| - 1] != ""
    ensures forall i :: |r| <= i < |xs| ==> xs[i] == ""
    decreases |xs|
  {
    if |xs| > 0 && xs[|xs| - 1] == "" then DropTrailingEmpty(xs[..|xs| - 1]) else xs
  }

  /** String#split with a literal (non-regex, non-single-space) separator. */
  function Split(s: string, sep: string): (r: seq<string>)
    requires |sep| > 0
    ensures |r| > 0 ==> r[|r| - 1] != ""
  {
    DropTrailingEmpty(SplitAll(s, sep))
  }

  /** No field of a split holds a character the input does not. */
  lemma SplitChars(s: string, sep: string)
    requires |sep| > 0
    ensures forall p, ch :: p in Split(s, sep) && ch in p ==> ch in s
  {
    SplitFromChars(s, sep, "");
    var all := SplitAll(s, sep);
    assert forall p :: p in Split(s, sep) ==> p in all;
  }

  /** Splitting on a line feed leaves no line feed in any line. */
  lemma SplitOnCharAvoidsIt(s: string, c: char)
    ensures forall p :: p in Split(s, [c]) ==> c !in p
  {
    SplitAllOnChar(s, c);
    var all := SplitAll(s, [c]);
    var r := Split(s, [c]);
    assert forall p :: p in r ==> p in all;
  }

  /** `gsub!(/\r\n/, ' ')`: every CR LF pair, scanned left to right, becomes
      one space; every other character stays. */
  function ReplaceCrlf(s: string): (r: string)
    ensures !Contains(r, "\r\n")
    ensures |r| <= |s|
    ensures |s| > 0 ==> |r| > 0 && r[0] == (if StartsWith(s, "\r\n") then ' ' else s[0])
    decreases |s|
  {
    if |s| == 0 then ""
    else if StartsWith(s, "\r\n") then
      var rest := ReplaceCrlf(s[2..]);
      assert (" " + rest)[1..] == rest;
      " " + rest
    else
      var rest := ReplaceCrlf(s[1..]);
      assert ([s[0]] + rest)[1..] == rest;
      [s[0]] + rest
  }

  /** The replacement, seen from the middle of a field: cur followed by the
      rewritten rest is the fields of cur + s joined with single spaces. */
  lemma {:induction false} ReplaceCrlfFrom(s: string, cur: string)
    ensures cur + ReplaceCrlf(s) == Join(SplitFrom(s, "\r\n", cur), " ")
    decreases |s|
  {
    if |s| < 2 {
      ReplaceCrlfShort(s);
      assert SplitFrom(s, "\r\n", cur) == [cur + s];
    } else if StartsWith(s, "\r\n") {
      ReplaceCrlfFrom(s[2..], "");
      ReplaceCrlfAtPair(s, cur);
    } else {
      ReplaceCrlfFrom(s[1..], cur + [s[0]]);
      ReplaceCrlfAtChar(s, cur);
    }
  }

  /** The step of ReplaceCrlfFrom where s starts with a CR LF pair. */
  lemma ReplaceCrlfAtPair(s: string, cur: string)
    requires |s| >= 2 && StartsWith(s, "\r\n")
    requires "" + ReplaceCrlf(s[2..]) == Join(SplitFrom(s[2..], "\r\n", ""), " ")
    ensures cur + ReplaceCrlf(s) == Join(SplitFrom(s, "\r\n", cur), " ")
  {
    var tail := ReplaceCrlf(s[2..]);
    var rest := SplitFrom(s[2..], "\r\n", "");
    ReplaceCrlfPairStep(s);
    SplitFromAtSeparator(s, "\r\n", cur);
    GlueSpace(cur, tail, rest);
  }

  /** The step of ReplaceCrlfFrom where s starts with anything else. */
  lemma ReplaceCrlfAtChar(s: string, cur: string)
    requires |s| >= 2 && !StartsWith(s, "\r\n")
    requires cur + [s[0]] + ReplaceCrlf(s[1..]) == Join(SplitFrom(s[1..], "\r\n", cur + [s[0]]), " ")
    ensures cur + ReplaceCrlf(s) == Join(SplitFrom(s, "\r\n", cur), " ")
  {
    var tail := ReplaceCrlf(s[1..]);
    ReplaceCrlfCharStep(s);
    SplitFromPastChar(s, "\r\n", cur);
    GlueChar(cur, s[0], tail, Join(SplitFrom(s[1..], "\r\n", cur + [s[0]]), " "));
  }

  lemma ReplaceCrlfPairStep(s: string)
    requires StartsWith(s, "\r\n")
    ensures ReplaceCrlf(s) == " " + ReplaceCrlf(s[2..])
  {
  }

  lemma ReplaceCrlfCharStep(s: string)
    requires |s| > 0 && !StartsWith(s, "\r\n")
    ensures ReplaceCrlf(s) == [s[0]] + ReplaceCrlf(s[1..])
  {
  }

  lemma SplitFromAtSeparator(s: string, sep: string, cur: string)
    requires |sep| > 0 && StartsWith(s, sep)
    ensures SplitFrom(s, sep, cur) == [cur] + SplitFrom(s[|sep|..], sep, "")
  {
  }

  lemma SplitFromPastChar(s: string, sep: string, cur: string)
    requires |sep| <= |s| && |sep| > 0 && !StartsWith(s, sep)
    ensures SplitFrom(s, sep, cur) == SplitFrom(s[1..], sep, cur + [s[0]])
  {
  }

  lemma GlueChar(cur: string, c: char, tail: string, joined: string)
    requires cur + [c] + tail == joined
    ensures cur + ([c] + tail) == joined
  {
    assert cur + [c] + tail == cur + ([c] + tail);
  }

  lemma GlueSpace(cur: string, tail: string, rest: seq<string>)
    requires "" + tail == Join(rest, " ") && |rest| > 0
    ensures cur + (" " + tail) == Join([cur] + rest, " ")
  {
    JoinCons(cur, rest, " ");
    assert "" + tail == tail;
  }

  /** Text too short to hold a CR LF pair is left alone. */
  lemma ReplaceCrlfShort(s: string)
    requires |s| < 2
    ensures ReplaceCrlf(s) == s
  {
    if |s| == 1 {
      assert !StartsWith(s, "\r\n");
      assert ReplaceCrlf(s) == [s[0]] + ReplaceCrlf(s[1..]);
      assert s[1..] == [];
      assert [s[0]] == s;
    }
  }

  /** `gsub!(/\r\n/, ' ')` puts one space wherever a CR LF pair was: the
      text between the pairs is kept, joined with spaces. */
  lemma ReplaceCrlfJoinsFields(s: string)
    ensures ReplaceCrlf(s) == Join(SplitAll(s, "\r\n"), " ")
  {
    ReplaceCrlfFrom(s, "");
    assert "" + ReplaceCrlf(s) == ReplaceCrlf(s);
  }

  /** Text without a CR LF pair is left alone. */
  lemma {:induction false} ReplaceCrlfKeepsPlainText(s: string)
    requires !Contains(s, "\r\n")
    ensures ReplaceCrlf(s) == s
    decreases |s|
  {
    if |s| > 0 {
      ReplaceCrlfKeepsPlainText(s[1..]);
      assert s == [s[0]] + s[1..];
    }
  }
}
