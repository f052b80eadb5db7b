/**
 * The two java.lang.String operations the redirect listener relies on:
 * `indexOf(String)` and `split` with a one-character, non-meta pattern
 * (`"&"` and `"="`), for which the JDK takes a literal fast path.
 */
module JavaStrings {

  /** `pat` occurs in `s` starting at index `i`. */
  predicate OccursAt(s: string, pat: string, i: int) {
    0 <= i && i + |pat| <= |s| && s[i..i + |pat|] == pat
  }

  /** `pat` occurs somewhere in `s`. */
  ghost predicate Contains(s: string, pat: string) {
    exists i :: OccursAt(s, pat, i)
  }

  /** `s.indexOf(pat, from)`: the first occurrence at or after `from`, or -1. */
  function IndexOfFrom(s: string, pat: string, from: nat): (r: int)
    decreases |s| - from
    ensures r == -1 || (from <= r && OccursAt(s, pat, r))
    ensures r == -1 ==> forall i :: from <= i ==> !OccursAt(s, pat, i)
    ensures r != -1 ==> forall i :: from <= i < r ==> !OccursAt(s, pat, i)
  {
    if from + |pat| > |s| then -1
    else if s[from..from + |pat|] == pat then from
    else IndexOfFrom(s, pat, from + 1)
  }

  /** `s.indexOf(pat)`: -1 exactly when `pat` does not occur in `s`. */
  function IndexOf(s: string, pat: string): (r: int)
    ensures r == -1 <==> !Contains(s, pat)
    ensures r != -1 ==> OccursAt(s, pat, r) && forall i :: 0 <= i < r ==> !OccursAt(s, pat, i)
  {
    IndexOfFrom(s, pat, 0)
  }

  /** The pieces joined back together with `sep` between neighbours. */
  function Join(ps: seq<string>, sep: char): string
  {
    if ps == [] then ""
    else if |ps| == 1 then ps[0]
    else ps[0] + [sep] + Join(ps[1..], sep)
  }

  /**
   * `s` cut at every occurrence of `sep`, keeping every piece, empty ones
   * included: the list the JDK builds before it trims the result.
   */
  function Pieces(s: string, sep: char): (r: seq<string>)
    ensures |r| >= 1
    ensures forall i :: 0 <= i < |r| ==> sep !in r[i]
    ensures Join(r, sep) == s
  {
    if s == [] then [""]
    else
      var rest := Pieces(s[1..], sep);
      if s[0] == sep then
        [""] + rest
      else
        var r := [[s[0]] + rest[0]] + rest[1..];
        assert r[1..] == rest[1..];
        assert s == [s[0]] + s[1..];
        r
  }

  /** Drops the empty strings at the end of `ps`, as `split` with limit 0 does. */
  function TrimTrailingEmpty(ps: seq<string>): (r: seq<string>)
    ensures r <= ps
    ensures r == [] || r[|r| - 1] != ""
    ensures forall i :: |r| <= i < |ps| ==> ps[i] == ""
  {
    if ps != [] && ps[|ps| - 1] == "" then TrimTrailingEmpty(ps[..|ps| - 1]) else ps
  }

  /**
   * `s.split(String.valueOf(sep))`. When `sep` does not occur the JDK returns
   * `[s]` untouched (so `""` splits to `[""]`); otherwise the pieces with the
   * trailing empty ones removed (so `"&&&"` splits to `[]`).
   */
  function Split(s: string, sep: char): (r: seq<string>)
    ensures forall i :: 0 <= i < |r| ==> sep !in r[i]
  {
    if sep !in s then [s] else TrimTrailingEmpty(Pieces(s, sep))
  }

  /** Cutting `a + [sep] + b` at `sep` gives `a` and then the pieces of `b`. */
  lemma {:induction false} PiecesAfterFirst(a: string, sep: char, b: string)
    requires sep !in a
    ensures Pieces(a + [sep] + b, sep) == [a] + Pieces(b, sep)
  {
    var s := a + [sep] + b;
    if a == [] {
      assert s == [sep] + b;
      assert s[0] == sep && s[1..] == b;
    } else {
      PiecesAfterFirst(a[1..], sep, b);
      assert s[0] == a[0] && a[0] != sep;
      assert s[1..] == a[1..] + [sep] + b;
      var rest := Pieces(s[1..], sep);
      assert rest == [a[1..]] + Pieces(b, sep);
      assert Pieces(s, sep) == [[a[0]] + rest[0]] + rest[1..];
      assert [a[0]] + a[1..] == a;
    }
  }

  /** A string without `sep` is a single piece. */
  lemma {:induction false} PiecesWithoutSep(a: string, sep: char)
    requires sep !in a
    ensures Pieces(a, sep) == [a]
  {
    if a != [] {
      PiecesWithoutSep(a[1..], sep);
      assert [a[0]] + a[1..] == a;
    }
  }

  /** Cutting and joining are inverse: pieces free of `sep` come back unchanged. */
  lemma {:induction false} PiecesOfJoin(ps: seq<string>, sep: char)
    requires |ps| >= 1
    requires forall i :: 0 <= i < |ps| ==> sep !in ps[i]
    ensures Pieces(Join(ps, sep), sep) == ps
  {
    if |ps| == 1 {
      PiecesWithoutSep(ps[0], sep);
    } else {
      PiecesOfJoin(ps[1..], sep);
      PiecesAfterFirst(ps[0], sep, Join(ps[1..], sep));
      assert [ps[0]] + ps[1..] == ps;
    }
  }

  /**
   * `split` undoes joining, provided no piece holds `sep` and the last piece
   * is not empty (a trailing empty piece is the one thing `split` drops).
   */
  lemma SplitOfJoin(ps: seq<string>, sep: char)
    requires |ps| >= 1
    requires forall i :: 0 <= i < |ps| ==> sep !in ps[i]
    requires |ps| == 1 || ps[|ps| - 1] != ""
    ensures Split(Join(ps, sep), sep) == ps
  {
    PiecesOfJoin(ps, sep);
    if |ps| == 1 {
      PiecesWithoutSep(ps[0], sep);
    } else {
      assert Join(ps, sep) == ps[0] + [sep] + Join(ps[1..], sep);
      assert Join(ps, sep)[|ps[0]|] == sep;
    }
  }

  /** Every piece is empty exactly when the string consists of separators only. */
  lemma {:induction false} PiecesAllEmpty(s: string, sep: char)
    ensures (forall i :: 0 <= i < |Pieces(s, sep)| ==> Pieces(s, sep)[i] == "")
            <==> (forall k :: 0 <= k < |s| ==> s[k] == sep)
  {
    if s != [] {
      PiecesAllEmpty(s[1..], sep);
      var rest := Pieces(s[1..], sep);
      if s[0] == sep {
        assert Pieces(s, sep) == [""] + rest;
        assert forall k :: 1 <= k < |s| ==> s[k] == s[1..][k - 1];
      } else {
        assert Pieces(s, sep)[0] == [s[0]] + rest[0];
      }
    }
  }
}
