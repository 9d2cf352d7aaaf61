/**
 String helpers with Python's semantics: `str.strip()`, `str.lower()` on
 ASCII letters, `str.isdigit()` on ASCII digits and `str.split(sep)` with a
 one-character separator, together with the laws the controller relies on.
 */
module Text {

  /** Python's `str.isspace()`: the ASCII controls 0x09-0x0D, the information
      separators 0x1C-0x1F, the space, and the Unicode space characters. */
  predicate IsSpace(c: char) {
    var n := c as int;
    || n == 0x20
    || 0x09 <= n <= 0x0D
    || 0x1C <= n <= 0x1F
    || n == 0x85 || n == 0xA0 || n == 0x1680
    || 0x2000 <= n <= 0x200A
    || n == 0x2028 || n == 0x2029 || n == 0x202F || n == 0x205F || n == 0x3000
  }

  predicate AllSpace(s: string) {
    forall i :: 0 <= i < |s| ==> IsSpace(s[i])
  }

  /** A string that `strip()` leaves alone: empty, or no space at either end. */
  predicate IsStripped(s: string) {
    s == [] || (!IsSpace(s[0]) && !IsSpace(s[|s| - 1]))
  }

  /** `s` is `m` with the whitespace `p` in front and the whitespace `q` behind. */
  predicate Padded(s: string, p: string, m: string, q: string) {
    s == p + m + q && AllSpace(p) && AllSpace(q)
  }

  /** Length of the longest all-space prefix. */
  function LeadingSpace(s: string): (n: nat)
    ensures n <= |s|
    ensures AllSpace(s[..n])
    ensures n == |s| || !IsSpace(s[n])
  {
    if s == [] || !IsSpace(s[0]) then 0 else 1 + LeadingSpace(s[1..])
  }

  /** Length of the longest all-space suffix. */
  function TrailingSpace(s: string): (n: nat)
    ensures n <= |s|
    ensures AllSpace(s[|s| - n..])
    ensures n == |s| || !IsSpace(s[|s| - n - 1])
  {
    if s == [] || !IsSpace(s[|s| - 1]) then 0
    else
      var u := s[..|s| - 1];
      var n := TrailingSpace(u);
      var tail := s[|s| - (n + 1)..];
      forall i | 0 <= i < n + 1 ensures IsSpace(tail[i]) {
        if i < n {
          assert tail[i] == u[|u| - n..][i];
        }
      }
      assert n < |u| ==> u[|u| - n - 1] == s[|s| - (n + 1) - 1];
      1 + n
  }

  /** Python's `str.strip()` with no argument: the part of `s` between its
      leading and its trailing whitespace. */
  function Strip(s: string): (r: string)
    ensures |r| <= |s|
    ensures IsStripped(r)
  {
    var a := LeadingSpace(s);
    var b := TrailingSpace(s[a..]);
    SuffixOfSuffix(s, a, b);
    StripShape(s, a, |s| - b);
    s[a..|s| - b]
  }

  /** `strip()` removes whitespace only: the input is the result with the
      leading and the trailing whitespace around it. */
  lemma StripPadded(s: string)
    ensures LeadingSpace(s) + |Strip(s)| <= |s|
    ensures Strip(s) == s[LeadingSpace(s)..LeadingSpace(s) + |Strip(s)|]
    ensures Padded(s, s[..LeadingSpace(s)], Strip(s), s[LeadingSpace(s) + |Strip(s)|..])
  {
    var a := LeadingSpace(s);
    var b := TrailingSpace(s[a..]);
    var e := |s| - b;
    assert Strip(s) == s[a..e];
    assert a + |Strip(s)| == e;
    SuffixOfSuffix(s, a, b);
    StripShape(s, a, e);
  }

  /** The last `b` characters of a suffix of `s` are the last `b` of `s`. */
  lemma SuffixOfSuffix(s: string, a: nat, b: nat)
    requires a + b <= |s|
    ensures s[a..][|s| - a - b..] == s[|s| - b..]
    ensures b < |s| - a ==> s[a..][|s| - a - b - 1] == s[|s| - b - 1]
  {
  }

  /** A string is its three consecutive slices glued together. */
  lemma Cut3(s: string, i: nat, j: nat)
    requires i <= j <= |s|
    ensures s == s[..i] + s[i..j] + s[j..]
  {
  }

  /** The facts behind the contract of `Strip`, for a string cut at `a` and `e`. */
  lemma StripShape(s: string, a: nat, e: nat)
    requires a <= e <= |s|
    requires AllSpace(s[..a]) && (a == |s| || !IsSpace(s[a]))
    requires AllSpace(s[e..]) && (e == a || !IsSpace(s[e - 1]))
    ensures IsStripped(s[a..e])
    ensures Padded(s, s[..a], s[a..e], s[e..])
  {
    Cut3(s, a, e);
  }

  lemma {:induction false} LeadingSpaceIs(s: string, k: nat)
    requires k <= |s| && AllSpace(s[..k]) && (k == |s| || !IsSpace(s[k]))
    ensures LeadingSpace(s) == k
  {
    if k > 0 {
      assert IsSpace(s[..k][0]);
      assert s[1..][..k - 1] == s[..k][1..];
      LeadingSpaceIs(s[1..], k - 1);
    }
  }

  lemma {:induction false} TrailingSpaceIs(s: string, k: nat)
    requires k <= |s| && AllSpace(s[|s| - k..]) && (k == |s| || !IsSpace(s[|s| - k - 1]))
    ensures TrailingSpace(s) == k
  {
    if k > 0 {
      var u := s[..|s| - 1];
      assert IsSpace(s[|s| - k..][k - 1]);
      assert u[|u| - (k - 1)..] == s[|s| - k..][..k - 1];
      TrailingSpaceIs(u, k - 1);
    }
  }

  /** `strip()` is determined by the padding: whatever whitespace surrounds a
      stripped core, stripping returns exactly that core. Together with the
      contract of `Strip` this pins `Strip` down completely. */
  lemma {:induction false} StripUnique(s: string, p: string, m: string, q: string)
    requires Padded(s, p, m, q) && IsStripped(m)
    ensures Strip(s) == m
  {
    if m == [] {
      assert AllSpace(s) by {
        forall i | 0 <= i < |s| ensures IsSpace(s[i]) {
          if i < |p| { assert s[i] == p[i]; } else { assert s[i] == q[i - |p|]; }
        }
      }
      assert s[..|s|] == s;
      LeadingSpaceIs(s, |s|);
      assert s[|s|..] == [];
    } else {
      assert s[..|p|] == p;
      assert s[|p|] == m[0];
      LeadingSpaceIs(s, |p|);
      var t := s[|p|..];
      assert t == m + q;
      assert t[|t| - |q|..] == q;
      assert t[|t| - |q| - 1] == m[|m| - 1];
      TrailingSpaceIs(t, |q|);
      assert t[..|t| - |q|] == m;
    }
  }

  /** Whitespace added around any text disappears under `strip()`. */
  lemma StripIgnoresPadding(p: string, m: string, q: string)
    requires AllSpace(p) && AllSpace(q)
    ensures Strip(p + m + q) == Strip(m)
  {
    var c := Strip(m);
    var p', q' := PaddingOf(m);
    Regroup(p, p', c, q', q);
    AllSpaceAppend(p, p');
    AllSpaceAppend(q', q);
    StripUnique(p + m + q, p + p', c, q' + q);
  }

  /** The whitespace that `strip()` removes from the front and the back. */
  lemma PaddingOf(m: string) returns (p: string, q: string)
    ensures Padded(m, p, Strip(m), q)
  {
    StripPadded(m);
    p, q := m[..LeadingSpace(m)], m[LeadingSpace(m) + |Strip(m)|..];
  }

  lemma Regroup(p: string, p': string, c: string, q': string, q: string)
    ensures p + (p' + c + q') + q == (p + p') + c + (q' + q)
  {
  }

  lemma AllSpaceAppend(a: string, b: string)
    requires AllSpace(a) && AllSpace(b)
    ensures AllSpace(a + b)
  {
    forall i | 0 <= i < |a + b| ensures IsSpace((a + b)[i]) {
      if i < |a| { assert (a + b)[i] == a[i]; } else { assert (a + b)[i] == b[i - |a|]; }
    }
  }

  lemma StripOfStripped(s: string)
    requires IsStripped(s)
    ensures Strip(s) == s
  {
    StripUnique(s, [], s, []);
  }

  /** Every character of `strip(s)` comes from `s`. */
  lemma StripChars(s: string, c: char)
    requires c in Strip(s)
    ensures c in s
  {
    var a := LeadingSpace(s);
    var r := Strip(s);
    StripPadded(s);
    var i :| 0 <= i < |r| && r[i] == c;
    assert r[i] == s[a..a + |r|][i] == s[a + i];
  }

  lemma StripAvoids(s: string, c: char)
    requires c !in s
    ensures c !in Strip(s)
  {
    var a := LeadingSpace(s);
    var r := Strip(s);
    StripPadded(s);
    forall i | 0 <= i < |r| ensures r[i] != c {
      assert r[i] == s[a..a + |r|][i] == s[a + i];
    }
  }

  predicate IsUpper(c: char) { 'A' <= c <= 'Z' }

  /** `str.lower()` restricted to ASCII: non-ASCII letters are left as they are. */
  function LowerChar(c: char): char {
    if IsUpper(c) then (c as int + 32) as char else c
  }

  function Lower(s: string): (r: string)
    ensures |r| == |s|
  {
    seq(|s|, i requires 0 <= i < |s| => LowerChar(s[i]))
  }

  /** Lower-casing character by character: how a literal lowers. */
  lemma LowerIs(w: string, l: string)
    requires |w| == |l| && forall i :: 0 <= i < |w| ==> LowerChar(w[i]) == l[i]
    ensures Lower(w) == l
  {
  }

  lemma LowerAppend(a: string, b: string)
    ensures Lower(a + b) == Lower(a) + Lower(b)
  {
  }

  lemma LowerIdempotent(s: string)
    ensures Lower(Lower(s)) == Lower(s)
  {
  }

  lemma LowerKeepsSpace(c: char)
    ensures IsSpace(LowerChar(c)) == IsSpace(c)
  {
  }

  /** Lower-casing and stripping commute: case never turns a space into a
      non-space or back. */
  lemma StripLower(s: string)
    ensures Strip(Lower(s)) == Lower(Strip(s))
  {
    var m := Strip(s);
    StripPadded(s);
    var p, q := s[..LeadingSpace(s)], s[LeadingSpace(s) + |m|..];
    LowerAppend(p, m);
    LowerAppend(p + m, q);
    forall i | 0 <= i < |p| ensures IsSpace(Lower(p)[i]) { LowerKeepsSpace(p[i]); }
    forall i | 0 <= i < |q| ensures IsSpace(Lower(q)[i]) { LowerKeepsSpace(q[i]); }
    if m != [] {
      LowerKeepsSpace(m[0]);
      LowerKeepsSpace(m[|m| - 1]);
    }
    StripUnique(Lower(s), Lower(p), Lower(m), Lower(q));
  }

  predicate IsDigit(c: char) { '0' <= c <= '9' }

  /** `str.isdigit()` for ASCII digits, except that the empty string passes
      here; callers test emptiness themselves. */
  predicate AllDigits(s: string) {
    forall i :: 0 <= i < |s| ==> IsDigit(s[i])
  }

  /** Index of the first `c` in `s`, or `|s|` when there is none. */
  function IndexOf(s: string, c: char): (i: nat)
    ensures i <= |s|
    ensures i < |s| ==> s[i] == c
    ensures c !in s[..i]
  {
    if s == [] then 0
    else if s[0] == c then 0
    else
      var j := IndexOf(s[1..], c);
      assert s[..j + 1] == [s[0]] + s[1..][..j];
      j + 1
  }

  /** Index of the last `c` in `s`, or `-1` when there is none. */
  function LastIndexOf(s: string, c: char): (i: int)
    ensures -1 <= i < |s|
    ensures 0 <= i ==> s[i] == c
    ensures forall k :: i < k < |s| ==> s[k] != c
  {
    if s == [] then -1
    else if s[|s| - 1] == c then |s| - 1
    else LastIndexOf(s[..|s| - 1], c)
  }

  /** The first `c` is at `i` when `s[i]` is a `c` and none comes before. */
  lemma IndexOfIs(s: string, c: char, i: nat)
    requires i <= |s| && (i < |s| ==> s[i] == c)
    requires forall k :: 0 <= k < i ==> s[k] != c
    ensures IndexOf(s, c) == i
  {
    var j := IndexOf(s, c);
    forall k | 0 <= k < j ensures s[k] != c {
      assert s[..j][k] == s[k];
    }
  }

  /** The last `c` is at `i` when `s[i]` is a `c` and none comes after. */
  lemma LastIndexOfIs(s: string, c: char, i: int)
    requires -1 <= i < |s| && (0 <= i ==> s[i] == c)
    requires forall k :: i < k < |s| ==> s[k] != c
    ensures LastIndexOf(s, c) == i
  {
    var j := LastIndexOf(s, c);
    if 0 <= i { assert s[i] == c; }
    if 0 <= j { assert s[j] == c; }
  }

  /** Inverse of `Split`: the pieces glued back with the separator between them. */
  function Join(ps: seq<string>, sep: char): string {
    if |ps| == 0 then []
    else if |ps| == 1 then ps[0]
    else ps[0] + [sep] + Join(ps[1..], sep)
  }

  /** Python's `s.split(sep)`: never empty, pieces free of the separator, and
      gluing the pieces back gives `s`. */
  function Split(s: string, sep: char): (r: seq<string>)
    ensures |r| >= 1
    ensures forall k :: 0 <= k < |r| ==> sep !in r[k]
    ensures Join(r, sep) == s
    decreases |s|
  {
    var i := IndexOf(s, sep);
    if i == |s| then
      assert s[..i] == s;
      [s]
    else
      var rest := Split(s[i + 1..], sep);
      var r := [s[..i]] + rest;
      assert r[1..] == rest;
      assert s == s[..i] + [sep] + s[i + 1..];
      r
  }

  lemma IndexOfAfterFree(p: string, sep: char, rest: string)
    requires sep !in p
    ensures IndexOf(p + [sep] + rest, sep) == |p|
  {
    var s := p + [sep] + rest;
    assert s[|p|] == sep;
    assert s[..|p|] == p;
  }

  /** Splitting undoes joining, for non-empty lists of separator-free pieces. */
  lemma {:induction false} SplitJoin(ps: seq<string>, sep: char)
    requires |ps| >= 1
    requires forall k :: 0 <= k < |ps| ==> sep !in ps[k]
    ensures Split(Join(ps, sep), sep) == ps
    decreases |ps|
  {
    if |ps| == 1 {
      assert IndexOf(ps[0], sep) == |ps[0]|;
    } else {
      var s := Join(ps, sep);
      var rest := Join(ps[1..], sep);
      assert s == ps[0] + [sep] + rest;
      IndexOfAfterFree(ps[0], sep, rest);
      assert s[..|ps[0]|] == ps[0];
      assert s[|ps[0]| + 1..] == rest;
      SplitJoin(ps[1..], sep);
      assert Split(s, sep) == [ps[0]] + ps[1..];
    }
  }

  /** `[t.strip() for t in ps if t.strip()]`. */
  function NonBlankStripped(ps: seq<string>): (r: seq<string>)
    ensures |r| <= |ps|
    ensures forall k :: 0 <= k < |r| ==> r[k] != [] && IsStripped(r[k])
  {
    if ps == [] then []
    else
      var t := Strip(ps[0]);
      (if t == [] then [] else [t]) + NonBlankStripped(ps[1..])
  }

  /** The filter keeps a list that is already non-blank and stripped. */
  lemma {:induction false} NonBlankStrippedKeeps(ps: seq<string>)
    requires forall k :: 0 <= k < |ps| ==> ps[k] != [] && IsStripped(ps[k])
    ensures NonBlankStripped(ps) == ps
    decreases |ps|
  {
    if ps != [] {
      StripOfStripped(ps[0]);
      NonBlankStrippedKeeps(ps[1..]);
    }
  }

  /** A character absent from every input piece is absent from every kept entry. */
  lemma {:induction false} NonBlankStrippedAvoids(ps: seq<string>, c: char)
    requires forall k :: 0 <= k < |ps| ==> c !in ps[k]
    ensures forall k :: 0 <= k < |NonBlankStripped(ps)| ==> c !in NonBlankStripped(ps)[k]
    decreases |ps|
  {
    if ps != [] {
      if c in Strip(ps[0]) {
        StripChars(ps[0], c);
      }
      NonBlankStrippedAvoids(ps[1..], c);
    }
  }
}
