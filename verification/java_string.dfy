/** The parts of java.lang.String that the request pipeline relies on:
    indexOf, contains, and split on a one-character separator with the
    default limit (0) and with limit 2. */
module JavaString {

  /** Index of the first occurrence of `c` in `s`, or `|s|` when there is none. */
  function IndexOf(s: string, c: char): (i: nat)
    ensures i <= |s|
    ensures c !in s[..i]
    ensures i < |s| ==> s[i] == c
    ensures i == |s| <==> c !in s
  {
    if s == [] then 0
    else if s[0] == c then 0
    else
      var j := IndexOf(s[1..], c);
      assert s[..1 + j] == [s[0]] + s[1..][..j];
      1 + j
  }

  /** `t` occurs in `s` starting at position `i`. */
  predicate OccursAt(s: string, t: string, i: nat) {
    i + |t| <= |s| && s[i..i + |t|] == t
  }

  /** String.contains: `t` occurs somewhere in `s`. */
  predicate Contains(s: string, t: string) {
    exists i: nat :: i <= |s| && OccursAt(s, t, i)
  }

  /** The text before the first `c` (all of `s` when there is none). */
  function FirstField(s: string, c: char): (f: string)
    ensures c !in f
    ensures |f| <= |s| && f == s[..|f|]
    ensures |f| == |s| || s[|f|] == c
  {
    s[..IndexOf(s, c)]
  }

  /** The text after the first `c`; only meaningful when `c` occurs in `s`. */
  function AfterFirst(s: string, c: char): (t: string)
    requires c in s
    ensures s == FirstField(s, c) + [c] + t
  {
    var i := IndexOf(s, c);
    assert s == s[..i] + [s[i]] + s[i + 1..];
    s[i + 1..]
  }

  /** The text between the first and the second `c` (or the end of `s`). */
  function SecondField(s: string, c: char): (f: string)
    requires c in s
    ensures c !in f
  {
    FirstField(AfterFirst(s, c), c)
  }

  /** Cutting `s` at every occurrence of `c`, keeping every piece, empty ones included. */
  function Pieces(s: string, c: char): (ps: seq<string>)
    ensures |ps| >= 1
    ensures forall k :: 0 <= k < |ps| ==> c !in ps[k]
    decreases |s|
  {
    var i := IndexOf(s, c);
    if i == |s| then [s] else [s[..i]] + Pieces(s[i + 1..], c)
  }

  /** Pieces glued back together with `c` between consecutive pieces. */
  function Join(ps: seq<string>, c: char): string
  {
    if ps == [] then ""
    else if |ps| == 1 then ps[0]
    else ps[0] + [c] + Join(ps[1..], c)
  }

  /** The longest prefix of `ps` that does not end in an empty string. */
  function DropTrailingEmpty(ps: seq<string>): (r: seq<string>)
    ensures |r| <= |ps| && r == ps[..|r|]
    ensures forall k :: |r| <= k < |ps| ==> ps[k] == ""
    ensures |r| > 0 ==> r[|r| - 1] != ""
  {
    if ps == [] then []
    else if ps[|ps| - 1] == "" then DropTrailingEmpty(ps[..|ps| - 1])
    else ps
  }

  /** String.split(c) with the default limit: when `c` does not occur the
      result is `[s]` itself (so `""` gives `[""]`); otherwise `s` is cut at
      every `c` and the trailing empty strings are removed, which leaves the
      empty array when every piece is empty. */
  function Split(s: string, c: char): (r: seq<string>)
    ensures c !in s ==> r == [s]
    ensures |r| <= |Pieces(s, c)| && r == Pieces(s, c)[..|r|]
    ensures forall k :: 0 <= k < |r| ==> c !in r[k]
  {
    if c in s then DropTrailingEmpty(Pieces(s, c)) else [s]
  }

  /** String.split(c, 2): cut at the first `c` only, keeping both sides. */
  function SplitLimit2(s: string, c: char): (r: seq<string>)
    ensures c !in s ==> r == [s]
    ensures c in s ==> |r| == 2 && c !in r[0] && s == r[0] + [c] + r[1]
  {
    if c in s then [FirstField(s, c), AfterFirst(s, c)] else [s]
  }

  /** Some character after the first `c` of `s` is not `c` itself. */
  predicate HasTextAfterFirst(s: string, c: char) {
    exists j :: IndexOf(s, c) < j < |s| && s[j] != c
  }

  /** Every character of `s` is `c`. */
  predicate AllChar(s: string, c: char) {
    forall j :: 0 <= j < |s| ==> s[j] == c
  }

  /** Every string in `ps` is empty. */
  predicate AllEmpty(ps: seq<string>) {
    forall k :: 0 <= k < |ps| ==> ps[k] == ""
  }

  /** Joining a piece in front of a non-empty list puts a separator between. */
  lemma JoinCons(head: string, ps: seq<string>, c: char)
    requires |ps| >= 1
    ensures Join([head] + ps, c) == head + [c] + Join(ps, c)
  {
    assert ([head] + ps)[1..] == ps;
  }

  /** Cutting and re-joining gives the original string back. */
  lemma {:induction false} JoinPieces(s: string, c: char)
    ensures Join(Pieces(s, c), c) == s
    decreases |s|
  {
    var i := IndexOf(s, c);
    if i < |s| {
      var head := s[..i];
      var rest := s[i + 1..];
      var qs := Pieces(rest, c);
      assert Pieces(s, c) == [head] + qs;
      JoinPieces(rest, c);
      JoinCons(head, qs, c);
      assert s == head + [s[i]] + rest;
    }
  }

  /** The first `c` of `a + [c] + b` is the one after `a` when `a` holds no `c`. */
  lemma {:induction false} IndexOfAfterPrefix(a: string, b: string, c: char)
    requires c !in a
    ensures IndexOf(a + [c] + b, c) == |a|
    decreases |a|
  {
    var s := a + [c] + b;
    if a != [] {
      assert s[0] == a[0];
      assert s[1..] == a[1..] + [c] + b;
      IndexOfAfterPrefix(a[1..], b, c);
    }
  }

  /** Joining pieces free of `c` and cutting again gives the same pieces back. */
  lemma {:induction false} PiecesJoin(ps: seq<string>, c: char)
    requires |ps| >= 1
    requires forall k :: 0 <= k < |ps| ==> c !in ps[k]
    ensures Pieces(Join(ps, c), c) == ps
    decreases |ps|
  {
    if |ps| > 1 {
      var head := ps[0];
      var rest := ps[1..];
      var tail := Join(rest, c);
      var s := head + [c] + tail;
      assert Join(ps, c) == s;
      assert c !in head;
      IndexOfAfterPrefix(head, tail, c);
      assert s[..|head|] == head;
      assert s[|head| + 1..] == tail;
      assert Pieces(s, c) == [head] + Pieces(tail, c);
      assert forall k :: 0 <= k < |rest| ==> rest[k] == ps[k + 1];
      PiecesJoin(rest, c);
      assert ps == [head] + rest;
    }
  }

  /** A string with no `c` is all `c` only when it is empty. */
  lemma NoCharAllCharIsEmpty(s: string, c: char)
    requires c !in s
    ensures AllChar(s, c) <==> s == ""
  {
    if s != "" {
      assert s[0] in s;
    }
  }

  /** Every piece is empty exactly when the string consists of `c` only. */
  lemma {:induction false} AllPiecesEmptyIff(s: string, c: char)
    ensures AllEmpty(Pieces(s, c)) <==> AllChar(s, c)
    decreases |s|
  {
    var ps := Pieces(s, c);
    var i := IndexOf(s, c);
    if i == |s| {
      assert ps == [s];
      NoCharAllCharIsEmpty(s, c);
    } else {
      var rest := s[i + 1..];
      var qs := Pieces(rest, c);
      AllPiecesEmptyIff(rest, c);
      assert ps == [s[..i]] + qs;
      assert AllEmpty(ps) <==> s[..i] == "" && AllEmpty(qs) by {
        if s[..i] == "" && AllEmpty(qs) {
          forall k | 0 <= k < |ps| ensures ps[k] == "" {
            if k > 0 {
              assert ps[k] == qs[k - 1];
            }
          }
        }
        if AllEmpty(ps) {
          assert ps[0] == "";
          forall k | 0 <= k < |qs| ensures qs[k] == "" {
            assert qs[k] == ps[k + 1];
          }
        }
      }
      assert AllChar(s, c) <==> i == 0 && AllChar(rest, c) by {
        if i == 0 && AllChar(rest, c) {
          forall j | 0 <= j < |s| ensures s[j] == c {
            if j > 0 {
              assert s[j] == rest[j - 1];
            }
          }
        }
        if AllChar(s, c) {
          NoCharAllCharIsEmpty(s[..i], c);
          assert AllChar(s[..i], c);
          forall j | 0 <= j < |rest| ensures rest[j] == c {
            assert rest[j] == s[i + 1 + j];
          }
        }
      }
    }
  }

  /** Split returns the empty array exactly when `s` is non-empty and made of `c` only. */
  lemma SplitEmptyIff(s: string, c: char)
    ensures Split(s, c) == [] <==> s != "" && AllChar(s, c)
  {
    var ps := Pieces(s, c);
    AllPiecesEmptyIff(s, c);
    if c in s {
      var r := Split(s, c);
      assert r == [] <==> AllEmpty(ps) by {
        if r == [] {
          assert forall k :: 0 <= k < |ps| ==> ps[k] == "";
        }
        if r != [] {
          assert ps[|r| - 1] == r[|r| - 1];
        }
      }
    } else {
      NoCharAllCharIsEmpty(s, c);
    }
  }

  /** Split yields at least two strings exactly when something other than
      `c` follows the first `c`. */
  lemma SplitHasSecondIff(s: string, c: char)
    ensures |Split(s, c)| >= 2 <==> HasTextAfterFirst(s, c)
  {
    var i := IndexOf(s, c);
    if i < |s| {
      var rest := s[i + 1..];
      var ps := Pieces(s, c);
      var r := Split(s, c);
      assert ps == [s[..i]] + Pieces(rest, c);
      AllPiecesEmptyIff(rest, c);
      if |r| >= 2 {
        assert ps[|r| - 1] != "";
        assert Pieces(rest, c)[|r| - 2] != "";
        var j :| 0 <= j < |rest| && rest[j] != c;
        assert s[i + 1 + j] == rest[j];
      }
      if HasTextAfterFirst(s, c) {
        var j :| i < j < |s| && s[j] != c;
        assert rest[j - i - 1] == s[j];
        var k :| 0 <= k < |Pieces(rest, c)| && Pieces(rest, c)[k] != "";
        assert ps[k + 1] != "";
      }
    }
  }

  /** The first two strings of a split are the first and second fields. */
  lemma SplitFields(s: string, c: char)
    ensures |Split(s, c)| >= 1 ==> Split(s, c)[0] == FirstField(s, c)
    ensures |Split(s, c)| >= 2 ==> c in s && Split(s, c)[1] == SecondField(s, c)
  {
    var r := Split(s, c);
    var i := IndexOf(s, c);
    if |r| >= 2 {
      var rest := s[i + 1..];
      assert Pieces(s, c) == [s[..i]] + Pieces(rest, c);
      assert rest == AfterFirst(s, c);
    }
  }

  /** Split only ever drops separators from the end: re-joining its result
      gives a prefix of `s` followed by nothing but `c`. */
  lemma SplitReconstructs(s: string, c: char)
    ensures |Join(Split(s, c), c)| <= |s|
    ensures s[..|Join(Split(s, c), c)|] == Join(Split(s, c), c)
    ensures AllChar(s[|Join(Split(s, c), c)|..], c)
  {
    if c in s {
      var ps := Pieces(s, c);
      var r := Split(s, c);
      JoinPieces(s, c);
      JoinDroppedEmpties(ps, |r|, c);
    }
  }

  /** Re-joining a prefix of pieces whose remaining pieces are empty leaves
      out exactly a run of separators. */
  lemma {:induction false} JoinDroppedEmpties(ps: seq<string>, n: nat, c: char)
    requires n <= |ps|
    requires forall k :: n <= k < |ps| ==> ps[k] == ""
    ensures |Join(ps[..n], c)| <= |Join(ps, c)|
    ensures Join(ps, c)[..|Join(ps[..n], c)|] == Join(ps[..n], c)
    ensures AllChar(Join(ps, c)[|Join(ps[..n], c)|..], c)
    decreases |ps|
  {
    if n < |ps| {
      var init := ps[..|ps| - 1];
      JoinDroppedEmpties(init, n, c);
      assert init[..n] == ps[..n];
      JoinSnoc(init, ps[|ps| - 1], c);
      assert init + [ps[|ps| - 1]] == ps;
    } else {
      assert ps[..n] == ps;
    }
  }

  /** Appending a piece to a non-empty list appends a separator and the piece. */
  lemma {:induction false} JoinSnoc(ps: seq<string>, p: string, c: char)
    ensures ps != [] ==> Join(ps + [p], c) == Join(ps, c) + [c] + p
    ensures ps == [] ==> Join(ps + [p], c) == p
    decreases |ps|
  {
    if |ps| > 1 {
      JoinSnoc(ps[1..], p, c);
      assert (ps + [p])[1..] == ps[1..] + [p];
    } else if |ps| == 1 {
      assert (ps + [p])[1..] == [p];
    }
  }

  /** Pieces free of the separator, the last one non-empty, are what Split
      gives back for their join. */
  lemma SplitOfJoin(ps: seq<string>, c: char)
    requires |ps| >= 2 && ps[|ps| - 1] != ""
    requires forall k :: 0 <= k < |ps| ==> c !in ps[k]
    ensures Split(Join(ps, c), c) == ps
  {
    PiecesJoin(ps, c);
    var s := Join(ps, c);
    assert s == ps[0] + [c] + Join(ps[1..], c);
    assert s[|ps[0]|] == c;
  }

  /** Pieces of a string ending in the separator gain one empty piece. */
  lemma PiecesOfTrailingSeparator(s: string, c: char)
    ensures Pieces(s + [c], c) == Pieces(s, c) + [""]
  {
    var ps := Pieces(s, c);
    JoinPieces(s, c);
    JoinSnoc(ps, "", c);
    assert Join(ps + [""], c) == s + [c];
    PiecesJoin(ps + [""], c);
  }

  /** For a non-empty string, one more separator at the end changes nothing. */
  lemma SplitTrailingSeparator(s: string, c: char)
    requires s != ""
    ensures Split(s + [c], c) == Split(s, c)
  {
    var t := s + [c];
    assert t[|s|] == c;
    PiecesOfTrailingSeparator(s, c);
    var ps := Pieces(s, c);
    assert (ps + [""])[..|ps|] == ps;
    assert DropTrailingEmpty(ps + [""]) == DropTrailingEmpty(ps);
    if c !in s {
      assert ps == [s];
      assert DropTrailingEmpty(ps) == ps;
    }
  }
}
