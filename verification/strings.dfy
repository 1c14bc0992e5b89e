/** The two string operations of the profile upsert: `String.prototype.split`
    with a one-character separator and `String.prototype.trim`. */
module Strings {

  /** The characters `trim` strips: ECMAScript WhiteSpace (TAB, VT, FF, SP,
      NBSP, ZWNBSP and the Unicode "Zs" space separators) and LineTerminator
      (LF, CR, LS, PS). */
  predicate IsWhitespace(c: char) {
    || c == '\t' || c == '\n' || c == '\U{000B}' || c == '\U{000C}' || c == '\r'
    || c == ' ' || c == '\U{00A0}' || c == '\U{1680}'
    || ('\U{2000}' <= c <= '\U{200A}')
    || c == '\U{2028}' || c == '\U{2029}' || c == '\U{202F}' || c == '\U{205F}'
    || c == '\U{3000}' || c == '\U{FEFF}'
  }

  predicate AllWhitespace(s: string) {
    forall i :: 0 <= i < |s| ==> IsWhitespace(s[i])
  }

  /** `t` is what trimming `s` must give: a slice of `s` with only whitespace
      cut off either side, and no whitespace left at either of its ends. */
  ghost predicate IsTrimOf(t: string, s: string) {
    exists a :: TrimAt(t, s, a)
  }

  /** `t` is the trim of `s` starting at position `a` of `s`. */
  ghost predicate TrimAt(t: string, s: string, a: int) {
    && 0 <= a && a + |t| <= |s| && t == s[a..a + |t|]
    && AllWhitespace(s[..a]) && AllWhitespace(s[a + |t|..])
    && (|t| > 0 ==> !IsWhitespace(t[0]) && !IsWhitespace(t[|t| - 1]))
  }

  /** Leading whitespace removed. */
  function TrimStart(s: string): string {
    if |s| > 0 && IsWhitespace(s[0]) then TrimStart(s[1..]) else s
  }

  /** `TrimStart` keeps a suffix of `s`, cuts only whitespace, and leaves no
      whitespace in front. */
  lemma {:induction false} TrimStartCuts(s: string)
    ensures var t := TrimStart(s);
            && |t| <= |s| && t == s[|s| - |t|..]
            && AllWhitespace(s[..|s| - |t|])
            && (|t| > 0 ==> !IsWhitespace(t[0]))
  {
    if |s| > 0 && IsWhitespace(s[0]) {
      var r := s[1..];
      TrimStartCuts(r);
      var t := TrimStart(r);
      var n := |s| - |t|;
      assert r[n - 1..] == s[n..];
      assert AllWhitespace(s[..n]) by {
        forall i | 0 <= i < n ensures IsWhitespace(s[..n][i]) {
          if i > 0 {
            assert s[..n][i] == r[..n - 1][i - 1];
          }
        }
      }
    } else {
      assert s[..0] == [];
    }
  }

  /** Trailing whitespace removed. */
  function TrimEnd(s: string): string {
    if |s| > 0 && IsWhitespace(s[|s| - 1]) then TrimEnd(s[..|s| - 1]) else s
  }

  /** `TrimEnd` keeps a prefix of `s`, cuts only whitespace, and leaves no
      whitespace at the end. */
  lemma {:induction false} TrimEndCuts(s: string)
    ensures var t := TrimEnd(s);
            && |t| <= |s| && t == s[..|t|]
            && AllWhitespace(s[|t|..])
            && (|t| > 0 ==> !IsWhitespace(t[|t| - 1]))
  {
    if |s| > 0 && IsWhitespace(s[|s| - 1]) {
      var r := s[..|s| - 1];
      TrimEndCuts(r);
      var t := TrimEnd(r);
      assert r[..|t|] == s[..|t|];
      assert AllWhitespace(s[|t|..]) by {
        forall i | 0 <= i < |s| - |t| ensures IsWhitespace(s[|t|..][i]) {
          if i < |s| - 1 - |t| {
            assert s[|t|..][i] == r[|t|..][i];
          }
        }
      }
    } else {
      assert s[|s|..] == [];
    }
  }

  /** `s.trim()` */
  function Trim(s: string): string {
    TrimEnd(TrimStart(s))
  }

  /** What `Trim` computes is the trim of its argument. */
  lemma TrimIsTrim(s: string)
    ensures IsTrimOf(Trim(s), s)
  {
    TrimStartCuts(s);
    TrimEndCuts(TrimStart(s));
    TrimBothEnds(s, TrimStart(s), Trim(s));
  }

  /** Cutting leading, then trailing whitespace is a trim. */
  lemma TrimBothEnds(s: string, u: string, t: string)
    requires |u| <= |s| && u == s[|s| - |u|..] && AllWhitespace(s[..|s| - |u|])
    requires |u| > 0 ==> !IsWhitespace(u[0])
    requires |t| <= |u| && t == u[..|t|] && AllWhitespace(u[|t|..])
    requires |t| > 0 ==> !IsWhitespace(t[|t| - 1])
    ensures IsTrimOf(t, s)
  {
    var a := |s| - |u|;
    assert t == s[a..a + |t|];
    assert s[a + |t|..] == u[|t|..];
    if |t| > 0 {
      assert t[0] == u[0];
    }
    assert TrimAt(t, s, a);
  }

  /** Trimming has exactly one possible answer, so `IsTrimOf` pins `Trim`
      down completely. */
  lemma TrimIsUnique(s: string, t1: string, t2: string)
    requires IsTrimOf(t1, s) && IsTrimOf(t2, s)
    ensures t1 == t2
  {
    var a1 :| TrimAt(t1, s, a1);
    var a2 :| TrimAt(t2, s, a2);
    if |t1| > 0 && |t2| > 0 {
      assert t1[0] == s[a1] && t2[0] == s[a2];
      SameStart(s, a1, a2);
      assert t1[|t1| - 1] == s[a1 + |t1| - 1] && t2[|t2| - 1] == s[a2 + |t2| - 1];
      SameEnd(s, a1 + |t1|, a2 + |t2|);
    } else if |t1| > 0 {
      assert t1[0] == s[a1];
      NothingLeft(s, a2);
    } else if |t2| > 0 {
      assert t2[0] == s[a2];
      NothingLeft(s, a1);
    }
  }

  /** Only one position can be the first non-whitespace character. */
  lemma SameStart(s: string, a1: nat, a2: nat)
    requires a1 < |s| && a2 < |s|
    requires AllWhitespace(s[..a1]) && !IsWhitespace(s[a1])
    requires AllWhitespace(s[..a2]) && !IsWhitespace(s[a2])
    ensures a1 == a2
  {
  }

  /** Only one position can follow the last non-whitespace character. */
  lemma SameEnd(s: string, e1: nat, e2: nat)
    requires 0 < e1 <= |s| && 0 < e2 <= |s|
    requires AllWhitespace(s[e1..]) && !IsWhitespace(s[e1 - 1])
    requires AllWhitespace(s[e2..]) && !IsWhitespace(s[e2 - 1])
    ensures e1 == e2
  {
  }

  /** Whitespace before and after a cut point means whitespace throughout. */
  lemma NothingLeft(s: string, a: nat)
    requires a <= |s| && AllWhitespace(s[..a]) && AllWhitespace(s[a..])
    ensures AllWhitespace(s)
  {
    forall i | 0 <= i < |s| ensures IsWhitespace(s[i]) {
      if i < a { assert s[..a][i] == s[i]; } else { assert s[a..][i - a] == s[i]; }
    }
  }

  /** `ps.map(p => p.trim())` */
  function TrimAll(ps: seq<string>): (ts: seq<string>)
    ensures |ts| == |ps|
    ensures forall i :: 0 <= i < |ps| ==> ts[i] == Trim(ps[i])
  {
    if |ps| == 0 then [] else [Trim(ps[0])] + TrimAll(ps[1..])
  }

  /** A slice shown to be a trim of `s` is what `Trim` returns. */
  lemma TrimFromWitness(s: string, t: string, a: int)
    requires TrimAt(t, s, a)
    ensures Trim(s) == t
  {
    TrimIsTrim(s);
    TrimIsUnique(s, Trim(s), t);
  }

  /** A string without whitespace at either end is its own trim. */
  lemma TrimOfTrimmed(s: string)
    requires |s| > 0 ==> !IsWhitespace(s[0]) && !IsWhitespace(s[|s| - 1])
    ensures Trim(s) == s
  {
    assert s[..0] == [] && s[|s|..] == [] && s[0..0 + |s|] == s;
    TrimFromWitness(s, s, 0);
  }

  /** Trimming twice is trimming once. */
  lemma TrimIdempotent(s: string)
    ensures Trim(Trim(s)) == Trim(s)
  {
    var t := Trim(s);
    TrimIsTrim(s);
    TrimIsTrim(t);
    assert IsTrimOf(t, t) by {
      assert t == t[0..0 + |t|] && t[..0] == [] && t[|t|..] == [];
      assert TrimAt(t, t, 0);
    }
    TrimIsUnique(t, Trim(t), t);
  }

  /** Number of occurrences of `d` in `s`. */
  function Count(s: string, d: char): nat {
    if |s| == 0 then 0 else (if s[0] == d then 1 else 0) + Count(s[1..], d)
  }

  /** `s.split(d)` for a one-character separator `d`: the maximal runs of
      non-separator characters, empty runs included, in order. */
  function Split(s: string, d: char): (parts: seq<string>)
    ensures |parts| >= 1
    ensures forall i :: 0 <= i < |parts| ==> d !in parts[i]
  {
    if |s| == 0 then [""]
    else
      var rest := Split(s[1..], d);
      if s[0] == d then [""] + rest
      else [[s[0]] + rest[0]] + rest[1..]
  }

  /** `parts.join(d)` */
  function Join(parts: seq<string>, d: char): string {
    if |parts| == 0 then ""
    else if |parts| == 1 then parts[0]
    else parts[0] + [d] + Join(parts[1..], d)
  }

  /** Splitting then joining with the same separator gives back the string. */
  lemma {:induction false} JoinSplit(s: string, d: char)
    ensures Join(Split(s, d), d) == s
  {
    if |s| > 0 {
      var rest := Split(s[1..], d);
      JoinSplit(s[1..], d);
      if s[0] == d {
        assert Join([""] + rest, d) == "" + [d] + Join(rest, d);
      } else {
        var ps := [[s[0]] + rest[0]] + rest[1..];
        if |rest| == 1 {
          assert Join(ps, d) == [s[0]] + rest[0];
        } else {
          assert ps[1..] == rest[1..];
          assert Join(ps, d) == [s[0]] + rest[0] + [d] + Join(rest[1..], d);
        }
        assert s == [s[0]] + s[1..];
      }
    }
  }

  /** A separator-free string splits into itself alone. */
  lemma {:induction false} SplitPlain(p: string, d: char)
    requires d !in p
    ensures Split(p, d) == [p]
  {
    if |p| > 0 {
      SplitPlain(p[1..], d);
      assert [p[0]] + p[1..] == p;
    }
  }

  /** Splitting `p + d + t`, with `p` separator-free, yields `p` followed by
      the pieces of `t`. */
  lemma {:induction false} SplitAtSeparator(p: string, d: char, t: string)
    requires d !in p
    ensures Split(p + [d] + t, d) == [p] + Split(t, d)
  {
    if |p| == 0 {
      assert p + [d] + t == [d] + t;
      assert ([d] + t)[1..] == t;
    } else {
      var s := p + [d] + t;
      assert s[1..] == p[1..] + [d] + t;
      SplitAtSeparator(p[1..], d, t);
      assert [p[0]] + p[1..] == p;
    }
  }

  /** Split is the inverse of Join on separator-free pieces: any non-empty
      list of pieces without the separator is recovered from its join. */
  lemma {:induction false} SplitJoin(parts: seq<string>, d: char)
    requires |parts| >= 1
    requires forall i :: 0 <= i < |parts| ==> d !in parts[i]
    ensures Split(Join(parts, d), d) == parts
  {
    if |parts| == 1 {
      SplitPlain(parts[0], d);
    } else {
      SplitJoin(parts[1..], d);
      SplitAtSeparator(parts[0], d, Join(parts[1..], d));
      assert [parts[0]] + parts[1..] == parts;
    }
  }

  /** There is one more piece than there are separators. */
  lemma {:induction false} SplitCount(s: string, d: char)
    ensures |Split(s, d)| == Count(s, d) + 1
  {
    if |s| > 0 {
      SplitCount(s[1..], d);
    }
  }
}
