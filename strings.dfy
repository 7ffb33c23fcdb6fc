/** Python `str` behaviour the scraper relies on: prefix and substring tests,
    lower-casing, whitespace stripping, `rfind` and `replace`.
    Characters are Unicode scalar values; case folding is ASCII only. */
module Strings {

  datatype Option<+T> = None | Some(value: T) {
    function GetOr(default: T): T {
      match this
      case Some(v) => v
      case None => default
    }
  }

  predicate IsAsciiLetter(c: char) {
    'A' <= c <= 'Z' || 'a' <= c <= 'z'
  }

  /** `\d`, restricted to ASCII digits. */
  predicate IsAsciiDigit(c: char) {
    '0' <= c <= '9'
  }

  /** `str.isspace` for one character: the characters Python's `str.strip()` removes. */
  predicate IsSpace(c: char) {
    ('\t' <= c <= '\r') || ('\U{1C}' <= c <= ' ') || c == '\U{85}' || c == '\U{A0}'
    || c == '\U{1680}' || ('\U{2000}' <= c <= '\U{200A}') || c == '\U{2028}' || c == '\U{2029}'
    || c == '\U{202F}' || c == '\U{205F}' || c == '\U{3000}'
  }

  /** `s.startswith(p)` */
  predicate StartsWith(s: string, p: string) {
    |p| <= |s| && s[..|p|] == p
  }

  /** `s.endswith(p)` */
  predicate EndsWith(s: string, p: string) {
    |p| <= |s| && s[|s| - |p|..] == p
  }

  /** `p` occurs in `s` starting at index `i`. */
  predicate OccursAt(s: string, p: string, i: int) {
    0 <= i <= |s| - |p| && s[i..i + |p|] == p
  }

  /** `p in s` */
  predicate Contains(s: string, p: string) {
    exists i | 0 <= i <= |s| :: OccursAt(s, p, i)
  }

  function LowerChar(c: char): (d: char)
    ensures IsAsciiLetter(c) ==> 'a' <= d <= 'z'
    ensures !('A' <= c <= 'Z') ==> d == c
  {
    if 'A' <= c <= 'Z' then (c as int + 32) as char else c
  }

  /** `s.lower()` on ASCII letters; every other character is kept. */
  function Lower(s: string): (r: string)
    ensures |r| == |s|
    ensures forall i | 0 <= i < |s| :: r[i] == LowerChar(s[i])
  {
    seq(|s|, i requires 0 <= i < |s| => LowerChar(s[i]))
  }

  /** `s.lstrip()` */
  function TrimLeft(s: string): string
    decreases |s|
  {
    if s != [] && IsSpace(s[0]) then TrimLeft(s[1..]) else s
  }

  /** `s.rstrip()` */
  function TrimRight(s: string): string
    decreases |s|
  {
    if s != [] && IsSpace(s[|s| - 1]) then TrimRight(s[..|s| - 1]) else s
  }

  /** `lstrip` removes a run of leading whitespace, and no more. */
  lemma {:induction false} TrimLeftSpec(s: string)
    ensures |TrimLeft(s)| <= |s| && TrimLeft(s) == s[|s| - |TrimLeft(s)|..]
    ensures TrimLeft(s) == [] || !IsSpace(TrimLeft(s)[0])
    ensures forall j | 0 <= j < |s| - |TrimLeft(s)| :: IsSpace(s[j])
    decreases |s|
  {
    if s != [] && IsSpace(s[0]) {
      TrimLeftSpec(s[1..]);
    }
  }

  /** `rstrip` removes a run of trailing whitespace, and no more. */
  lemma {:induction false} TrimRightSpec(s: string)
    ensures |TrimRight(s)| <= |s| && TrimRight(s) == s[..|TrimRight(s)|]
    ensures TrimRight(s) == [] || !IsSpace(TrimRight(s)[|TrimRight(s)| - 1])
    ensures forall j | |TrimRight(s)| <= j < |s| :: IsSpace(s[j])
    decreases |s|
  {
    if s != [] && IsSpace(s[|s| - 1]) {
      TrimRightSpec(s[..|s| - 1]);
    }
  }

  /** `s.strip()` */
  function Strip(s: string): string {
    TrimRight(TrimLeft(s))
  }

  /** `r` occurs in `s` at index `a`, and everything before and after that occurrence is
      whitespace. */
  predicate SpaceAround(s: string, r: string, a: int) {
    OccursAt(s, r, a)
    && (forall j | 0 <= j < a :: IsSpace(s[j]))
    && (forall j | a + |r| <= j < |s| :: IsSpace(s[j]))
  }

  /** What `strip` leaves sits where `lstrip` stopped, with only whitespace around it. */
  lemma StripSurroundedBySpace(s: string)
    ensures |TrimLeft(s)| <= |s| && SpaceAround(s, Strip(s), |s| - |TrimLeft(s)|)
  {
    var left := TrimLeft(s);
    TrimLeftSpec(s);
    TrimRightSpec(left);
    var r := TrimRight(left);
    var a := |s| - |left|;
    assert left == s[a..];
    assert s[a..a + |r|] == left[..|r|];
    forall j | a + |r| <= j < |s| ensures IsSpace(s[j]) {
      assert s[j] == left[j - a];
    }
  }

  /** What `strip` leaves is a piece of the text that neither starts nor ends with
      whitespace, and it is empty only when the text is all whitespace. Exactly one run
      of whitespace is removed at each end: everything around that piece is whitespace. */
  lemma StripSpec(s: string)
    ensures Contains(s, Strip(s))
    ensures exists a | 0 <= a <= |s| :: SpaceAround(s, Strip(s), a)
    ensures Strip(s) == [] || (!IsSpace(Strip(s)[0]) && !IsSpace(Strip(s)[|Strip(s)| - 1]))
    ensures Strip(s) == [] <==> forall j | 0 <= j < |s| :: IsSpace(s[j])
  {
    var left := TrimLeft(s);
    var r := Strip(s);
    var a := |s| - |left|;
    StripSurroundedBySpace(s);
    TrimLeftSpec(s);
    TrimRightSpec(left);
    if r != [] {
      assert r[0] == left[0];
      assert s[a] == r[0];
    }
  }

  /** `s.rfind(c)`: the index of the last `c` in `s`, or -1. */
  function RFind(s: string, c: char): (r: int)
    ensures -1 <= r < |s|
    ensures 0 <= r ==> s[r] == c
    ensures forall j | r < j < |s| :: s[j] != c
  {
    if s == [] then -1
    else if s[|s| - 1] == c then |s| - 1
    else RFind(s[..|s| - 1], c)
  }

  /** `s.replace(p, r)` for a non-empty pattern: occurrences are replaced left to right
      without overlapping. */
  function Replace(s: string, p: string, r: string): string
    requires p != []
    decreases |s|
  {
    if |s| < |p| then s
    else if s[..|p|] == p then r + Replace(s[|p|..], p, r)
    else [s[0]] + Replace(s[1..], p, r)
  }

  lemma RFindIsLast(s: string, c: char, k: int)
    requires 0 <= k < |s| && s[k] == c
    requires forall j | k < j < |s| :: s[j] != c
    ensures RFind(s, c) == k
  {
  }

  lemma RFindAbsent(s: string, c: char)
    requires forall j | 0 <= j < |s| :: s[j] != c
    ensures RFind(s, c) == -1
  {
  }

  /** A text starting with a non-empty prefix starts with that prefix's first character. */
  lemma StartsWithFirst(s: string, p: string)
    requires p != [] && StartsWith(s, p)
    ensures s != [] && s[0] == p[0]
  {
    assert s[..|p|][0] == s[0];
  }

  lemma StartsWithAppend(a: string, b: string, p: string)
    requires StartsWith(a, p)
    ensures StartsWith(a + b, p)
  {
    assert (a + b)[..|p|] == a[..|p|];
  }

  /** Dropping the first character keeps a text free of `p`. */
  lemma TailAbsent(s: string, p: string)
    requires s != [] && !Contains(s, p)
    ensures !Contains(s[1..], p)
  {
    forall i | 0 <= i <= |s[1..]| ensures !OccursAt(s[1..], p, i) {
      assert !OccursAt(s, p, i + 1);
      if i <= |s[1..]| - |p| {
        assert s[1..][i..i + |p|] == s[i + 1..i + 1 + |p|];
      }
    }
  }

  lemma {:induction false} ReplaceAbsent(s: string, p: string, r: string)
    requires p != []
    requires !Contains(s, p)
    ensures Replace(s, p, r) == s
    decreases |s|
  {
    if |s| >= |p| {
      assert !OccursAt(s, p, 0);
      assert s[0..|p|] == s[..|p|];
      TailAbsent(s, p);
      ReplaceAbsent(s[1..], p, r);
      assert [s[0]] + s[1..] == s;
    }
  }

  /** An occurrence after the first part of a concatenation is an occurrence in the second. */
  lemma OccursInSuffix(a: string, b: string, q: string, i: int)
    requires OccursAt(a + b, q, i) && |a| <= i
    ensures OccursAt(b, q, i - |a|)
  {
    assert (a + b)[i..i + |q|] == b[i - |a|..i - |a| + |q|];
  }

  /** Dropping a prefix keeps a text free of `q`. */
  lemma SuffixAbsent(s: string, q: string, k: int)
    requires 0 <= k <= |s| && !Contains(s, q)
    ensures !Contains(s[k..], q)
  {
    forall i | 0 <= i <= |s[k..]| ensures !OccursAt(s[k..], q, i) {
      assert !OccursAt(s, q, k + i);
      if i <= |s[k..]| - |q| {
        assert s[k..][i..i + |q|] == s[k + i..k + i + |q|];
      }
    }
  }

  /** `replace` keeps the text up to the first character of a replacement it inserts. */
  lemma {:induction false} ReplaceKeepsPrefix(s: string, p: string, r: string, k: int)
    requires p != [] && r != []
    requires 0 <= k <= |Replace(s, p, r)|
    requires forall j | 0 <= j < k :: Replace(s, p, r)[j] != r[0]
    ensures k <= |s| && Replace(s, p, r)[..k] == s[..k]
    decreases |s|
  {
    var t := Replace(s, p, r);
    if |s| < |p| {
    } else if s[..|p|] == p {
      assert t == r + Replace(s[|p|..], p, r);
      assert t[0] == r[0];
    } else if k > 0 {
      var rest := Replace(s[1..], p, r);
      assert t == [s[0]] + rest;
      forall j | 0 <= j < k - 1 ensures rest[j] != r[0] {
        assert rest[j] == t[j + 1];
      }
      ReplaceKeepsPrefix(s[1..], p, r, k - 1);
      assert t[..k] == [s[0]] + rest[..k - 1];
      assert s[..k] == [s[0]] + s[1..][..k - 1];
    }
  }

  /** After `s.replace(p, r)` no `q` is left, when `q` is `p` itself or absent from `s`, and
      `r` can create no `q`: both lead with the same character, which occurs nowhere else in
      either, and they differ. With `p == q` this says every occurrence is replaced. */
  lemma {:induction false} ReplaceLeavesNo(s: string, p: string, r: string, q: string)
    requires p != [] && LeadsUniquely(r) && LeadsUniquely(q)
    requires |r| == |q| && r != q && r[0] == q[0]
    requires q == p || !Contains(s, q)
    ensures !Contains(Replace(s, p, r), q)
    decreases |s|
  {
    if |s| < |p| {
    } else if s[..|p|] == p {
      if q != p {
        SuffixAbsent(s, q, |p|);
      }
      ReplaceLeavesNo(s[|p|..], p, r, q);
      PrependKeepsAbsent(r, Replace(s[|p|..], p, r), q);
    } else {
      var rest := Replace(s[1..], p, r);
      var t := [s[0]] + rest;
      if q != p {
        TailAbsent(s, q);
      }
      ReplaceLeavesNo(s[1..], p, r, q);
      forall i | 0 <= i <= |t| ensures !OccursAt(t, q, i) {
        if 1 <= i {
          if OccursAt(t, q, i) {
            OccursInSuffix([s[0]], rest, q, i);
          }
        } else {
          assert !OccursAt(s, q, 0);
          if OccursAt(t, q, 0) {
            OccurrenceBeforeReplace(s, p, r, q);
          }
        }
      }
    }
  }

  /** A replacement that can create no `q` keeps a text free of `q` when put in front. */
  lemma PrependKeepsAbsent(r: string, rest: string, q: string)
    requires LeadsUniquely(r) && |r| == |q| && r != q && r[0] == q[0]
    requires !Contains(rest, q)
    ensures !Contains(r + rest, q)
  {
    var t := r + rest;
    forall i | 0 <= i <= |t| ensures !OccursAt(t, q, i) {
      if |r| <= i {
        if OccursAt(t, q, i) {
          OccursInSuffix(r, rest, q, i);
        }
      } else if i == 0 {
        assert t[0..|q|] == r;
      } else if i + |q| <= |t| {
        assert t[i..i + |q|][0] == r[i] != q[0];
      }
    }
  }

  /** A `q` at the front of what `replace` gives after an unchanged first character was
      already at the front of the text. */
  lemma OccurrenceBeforeReplace(s: string, p: string, r: string, q: string)
    requires p != [] && r != [] && LeadsUniquely(q) && r[0] == q[0] && s != []
    requires OccursAt([s[0]] + Replace(s[1..], p, r), q, 0)
    ensures OccursAt(s, q, 0)
  {
    var rest := Replace(s[1..], p, r);
    var t := [s[0]] + rest;
    var k := |q| - 1;
    assert t[0..|q|] == q;
    assert t[1..|q|] == q[1..];
    assert t[1..|q|] == rest[..k];
    forall j | 0 <= j < k ensures rest[j] != r[0] {
      assert rest[j] == q[j + 1];
    }
    ReplaceKeepsPrefix(s[1..], p, r, k);
    forall j | 0 <= j < |q| ensures s[j] == q[j] {
      if j == 0 {
        assert q[0] == t[0];
      } else {
        assert s[j] == s[1..][..k][j - 1] == q[1..][j - 1];
      }
    }
    assert s[..|q|] == q;
  }

  /** A text without the first character of a pattern does not contain the pattern. */
  lemma FirstCharAbsent(s: string, p: string)
    requires p != [] && forall i | 0 <= i < |s| :: s[i] != p[0]
    ensures !Contains(s, p)
  {
    forall i | 0 <= i <= |s| ensures !OccursAt(s, p, i) {
      if i + |p| <= |s| {
        assert s[i..i + |p|][0] == s[i];
      }
    }
  }

  /** A pattern whose first character occurs nowhere else in it, such as `.mp4`. */
  predicate LeadsUniquely(p: string) {
    p != [] && forall k | 0 < k < |p| :: p[k] != p[0]
  }

  /** Appending one occurrence of such a pattern to a text free of it is undone by replacing it. */
  lemma {:induction false} ReplaceAtEnd(s: string, p: string, r: string)
    requires LeadsUniquely(p)
    requires !Contains(s, p)
    ensures Replace(s + p, p, r) == s + r
    decreases |s|
  {
    if s == [] {
      assert s + p == p;
      assert p[|p|..] == [];
      ReplaceAbsent([], p, r);
    } else {
      NotAtFront(s, p);
      TailAbsent(s, p);
      ReplaceAtEnd(s[1..], p, r);
      var sp := s + p;
      assert sp[1..] == s[1..] + p;
      assert Replace(sp, p, r) == [sp[0]] + Replace(sp[1..], p, r);
      assert [s[0]] + (s[1..] + r) == s + r;
    }
  }

  lemma NotAtFront(s: string, p: string)
    requires LeadsUniquely(p) && s != [] && !Contains(s, p)
    ensures (s + p)[..|p|] != p
  {
    if |p| <= |s| {
      assert !OccursAt(s, p, 0);
      assert (s + p)[..|p|] == s[0..|p|];
    } else {
      assert (s + p)[..|p|][|s|] == p[0] != p[|s|];
    }
  }

  /** Appending a same-length text that starts like `p` but is not `p` creates no occurrence. */
  lemma AppendKeepsAbsent(s: string, t: string, p: string)
    requires LeadsUniquely(p) && |t| == |p| && t != p && t[0] == p[0]
    requires !Contains(s, p)
    ensures !Contains(s + t, p)
  {
    forall i | 0 <= i <= |s + t| ensures !OccursAt(s + t, p, i) {
      if i + |p| <= |s| {
        assert !OccursAt(s, p, i);
        assert (s + t)[i..i + |p|] == s[i..i + |p|];
      } else if i == |s| {
        assert (s + t)[i..i + |p|] == t;
      } else if i < |s| {
        assert (s + t)[i..i + |p|][|s| - i] == t[0] != p[|s| - i];
      }
    }
  }
}
