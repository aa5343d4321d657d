/** Shared vocabulary: optional values, paths as component sequences, and the
    few pieces of Rust's standard library (`Path`, `str`, `u32::from_str`)
    whose exact behaviour the archiver depends on. */
module Base {

  datatype Option<+T> = None | Some(value: T)

  /** Unsigned 32-bit integers, the width of image sizes and post lengths. */
  const U32_LIMIT: int := 0x1_0000_0000
  type u32 = x: int | 0 <= x < U32_LIMIT

  /** `as u32` on a wider unsigned value keeps the low 32 bits. */
  function TruncateU32(n: nat): (r: u32)
    ensures n < U32_LIMIT ==> r == n
  {
    n % U32_LIMIT
  }

  /** A path is the sequence of its components: `a/b/c.zip` is ["a", "b", "c.zip"]. */
  type Path = seq<string>

  /** `Path::file_name`, with `unwrap_or_default` applied: the last component, or "". */
  function FileName(p: Path): (r: string)
    ensures |p| > 0 ==> r == p[|p| - 1]
    ensures |p| == 0 ==> r == ""
  {
    if |p| == 0 then "" else p[|p| - 1]
  }

  /** `Path::parent`: every component but the last; none for the empty path. */
  function Parent(p: Path): (r: Option<Path>)
    ensures r.Some? <==> |p| > 0
    ensures r.Some? ==> r.value + [FileName(p)] == p
  {
    if |p| == 0 then None else Some(p[..|p| - 1])
  }

  /** `Path::join` with a single relative component. */
  function Join(p: Path, name: string): (r: Path)
    ensures FileName(r) == name && Parent(r) == Some(p)
  {
    p + [name]
  }

  /** Position of the last `c` in `s`, if any. */
  function LastIndexOf(s: string, c: char): (r: Option<nat>)
    ensures r.Some? ==> r.value < |s| && s[r.value] == c
    ensures r.Some? ==> forall j :: r.value < j < |s| ==> s[j] != c
    ensures r.None? ==> forall j :: 0 <= j < |s| ==> s[j] != c
  {
    if |s| == 0 then None
    else if s[|s| - 1] == c then Some(|s| - 1)
    else LastIndexOf(s[..|s| - 1], c)
  }

  /** Position of the first `c` in `s` at or after `from`, if any. */
  function IndexOfFrom(s: string, c: char, from: nat): (r: Option<nat>)
    ensures r.Some? ==> from <= r.value < |s| && s[r.value] == c
    ensures r.Some? ==> forall j :: from <= j < r.value ==> s[j] != c
    ensures r.None? ==> forall j :: from <= j < |s| ==> s[j] != c
    decreases |s| - from
  {
    if from >= |s| then None
    else if s[from] == c then Some(from)
    else IndexOfFrom(s, c, from + 1)
  }

  /** `OsStr` extension of a file name, as `Path::extension` computes it: the
      text after the last '.', unless there is no '.' or the only one leads. */
  function NameExtension(name: string): (r: Option<string>)
    ensures r.None? <==> forall j :: 0 < j < |name| ==> name[j] != '.'
    ensures r.Some? ==> exists i :: 0 < i < |name| && name[i] == '.' && r.value == name[i + 1..]
    ensures r.Some? ==> forall k :: 0 <= k < |r.value| ==> r.value[k] != '.'
  {
    match LastIndexOf(name, '.')
    case None => None
    case Some(i) => if i == 0 then None else Some(name[i + 1..])
  }

  /** `path.extension().unwrap_or_default()`. */
  function Extension(p: Path): (r: string)
  {
    match NameExtension(FileName(p))
    case None => ""
    case Some(e) => e
  }

  /** `Path::file_prefix` of a file name: the text before the first '.' that
      is not the leading character; the whole name when there is none. */
  function NamePrefix(name: string): (r: string)
    ensures |name| > 0 ==> 0 < |r| <= |name| && r == name[..|r|]
    ensures forall j :: 0 < j < |r| ==> r[j] != '.'
    ensures |r| < |name| ==> name[|r|] == '.'
  {
    if |name| == 0 then ""
    else
      match IndexOfFrom(name, '.', 1)
      case None => name
      case Some(i) => name[..i]
  }

  /** The dot-file test applied to every directory entry. */
  predicate IsHidden(name: string) {
    |name| > 0 && name[0] == '.'
  }

  /** The number of bytes of `c` in UTF-8. */
  function Utf8Width(c: char): (n: nat)
    ensures 1 <= n <= 4
    ensures n == 1 <==> (c as int) < 0x80
  {
    if (c as int) < 0x80 then 1
    else if (c as int) < 0x800 then 2
    else if (c as int) < 0x1_0000 then 3
    else 4
  }

  /** The length in bytes of `s` in UTF-8, Rust's `str::len`. */
  function Utf8Len(s: string): nat {
    if |s| == 0 then 0 else Utf8Len(s[..|s| - 1]) + Utf8Width(s[|s| - 1])
  }

  lemma Utf8LenStep(s: string, k: nat)
    requires k < |s|
    ensures Utf8Len(s[..k + 1]) == Utf8Len(s[..k]) + Utf8Width(s[k])
  {
    assert s[..k + 1][..k] == s[..k];
  }

  /** Longer prefixes have strictly more bytes. */
  lemma {:induction false} Utf8LenIncreasing(s: string, j: nat, m: nat)
    requires j < m <= |s|
    ensures Utf8Len(s[..j]) < Utf8Len(s[..m])
  {
    Utf8LenStep(s, m - 1);
    if j < m - 1 {
      Utf8LenIncreasing(s, j, m - 1);
    }
  }

  /** The character index, from `k` on, at which the first `b` bytes of `s`
      end; none when byte offset `b` falls inside a character or past the
      end, where Rust's `str` slicing panics. */
  function CharBoundary(s: string, b: nat, k: nat): (r: Option<nat>)
    requires k <= |s|
    ensures r.Some? ==> k <= r.value <= |s| && Utf8Len(s[..r.value]) == b
    ensures r.None? ==> forall j :: k <= j <= |s| ==> Utf8Len(s[..j]) != b
    decreases |s| - k
  {
    if Utf8Len(s[..k]) == b then Some(k)
    else if k == |s| then None
    else CharBoundary(s, b, k + 1)
  }

  /** On ASCII text byte offsets are character offsets. */
  lemma {:induction false} AsciiUtf8Len(s: string, k: nat)
    requires k <= |s| && forall i :: 0 <= i < k ==> (s[i] as int) < 0x80
    ensures Utf8Len(s[..k]) == k
  {
    if k > 0 {
      AsciiUtf8Len(s, k - 1);
      Utf8LenStep(s, k - 1);
    }
  }

  /** Rust's `str` order: byte-wise lexicographic. On Unicode scalar values
      this is code-point-wise lexicographic, since UTF-8 preserves that order. */
  predicate StrLess(a: string, b: string)
  {
    if |a| == 0 then |b| > 0
    else if |b| == 0 then false
    else if a[0] != b[0] then a[0] < b[0]
    else StrLess(a[1..], b[1..])
  }

  predicate StrLeq(a: string, b: string) {
    !StrLess(b, a)
  }

  lemma {:induction false} StrLessIrreflexive(a: string)
    ensures !StrLess(a, a)
  {
    if |a| > 0 { StrLessIrreflexive(a[1..]); }
  }

  lemma {:induction false} StrLessTrichotomy(a: string, b: string)
    ensures StrLess(a, b) || StrLess(b, a) || a == b
  {
    if |a| > 0 && |b| > 0 && a[0] == b[0] {
      StrLessTrichotomy(a[1..], b[1..]);
      if a[1..] == b[1..] {
        assert a == [a[0]] + a[1..] && b == [b[0]] + b[1..];
      }
    }
  }

  lemma {:induction false} StrLessTransitive(a: string, b: string, c: string)
    requires StrLess(a, b) && StrLess(b, c)
    ensures StrLess(a, c)
  {
    if |a| > 0 && a[0] == b[0] && b[0] == c[0] {
      StrLessTransitive(a[1..], b[1..], c[1..]);
    }
  }

  lemma StrLessAsymmetric(a: string, b: string)
    requires StrLess(a, b)
    ensures !StrLess(b, a)
  {
    if StrLess(b, a) {
      StrLessTransitive(a, b, a);
      StrLessIrreflexive(a);
    }
  }

  lemma StrLeqTotal(a: string, b: string)
    ensures StrLeq(a, b) || StrLeq(b, a)
  {
    if StrLess(a, b) { StrLessAsymmetric(a, b); }
  }

  lemma StrLeqTransitive(a: string, b: string, c: string)
    requires StrLeq(a, b) && StrLeq(b, c)
    ensures StrLeq(a, c)
  {
    if StrLess(c, a) {
      StrLessTrichotomy(a, b);
      StrLessTrichotomy(b, c);
      if StrLess(a, b) {
        StrLessTransitive(c, a, b);
      } else if a != b {
        StrLessTransitive(b, c, a);
      }
    }
  }

  /** `Iterator::position` from `from` on: the first index whose element
      satisfies `keep`. */
  function Position<T>(s: seq<T>, keep: T -> bool, from: nat): (r: Option<nat>)
    requires from <= |s|
    ensures r.Some? ==> from <= r.value < |s| && keep(s[r.value])
    ensures r.Some? ==> forall j :: from <= j < r.value ==> !keep(s[j])
    ensures r.None? ==> forall j :: from <= j < |s| ==> !keep(s[j])
    decreases |s| - from
  {
    if from == |s| then None
    else if keep(s[from]) then Some(from)
    else Position(s, keep, from + 1)
  }

  lemma {:induction false} PositionIs<T>(s: seq<T>, keep: T -> bool, from: nat, i: nat)
    requires from <= i < |s| && keep(s[i]) && forall j :: from <= j < i ==> !keep(s[j])
    ensures Position(s, keep, from) == Some(i)
    decreases i - from
  {
    if from < i {
      PositionIs(s, keep, from + 1, i);
    }
  }

  /** `str::split` on a single character: "a--b" gives ["a", "", "b"] and ""
      gives [""]. */
  function Split(s: string, sep: char): (r: seq<string>)
    ensures |r| > 0
    ensures forall k :: 0 <= k < |r| ==> sep !in r[k]
    ensures JoinWith(r, sep) == s
    decreases |s|
  {
    match IndexOfFrom(s, sep, 0)
    case None => [s]
    case Some(i) =>
      assert forall j :: 0 <= j < i ==> s[..i][j] != sep;
      var rest := Split(s[i + 1..], sep);
      JoinWithCons(s[..i], rest, sep);
      assert s == s[..i] + [sep] + s[i + 1..];
      [s[..i]] + rest
  }

  /** Joins `parts` with `sep` between consecutive parts. */
  function JoinWith(parts: seq<string>, sep: char): (r: string)
    ensures |parts| == 1 ==> r == parts[0]
  {
    if |parts| == 0 then ""
    else if |parts| == 1 then parts[0]
    else JoinWith(parts[..|parts| - 1], sep) + [sep] + parts[|parts| - 1]
  }

  lemma {:induction false} JoinWithCons(a: string, rest: seq<string>, sep: char)
    requires |rest| > 0
    ensures JoinWith([a] + rest, sep) == a + [sep] + JoinWith(rest, sep)
  {
    if |rest| > 1 {
      var init := rest[..|rest| - 1];
      assert ([a] + rest)[..|rest|] == [a] + init;
      JoinWithCons(a, init, sep);
    } else {
      assert [a] + rest == [a, rest[0]];
    }
  }

  /** `str::replace` of one character by another. */
  function ReplaceChar(s: string, from: char, to: char): (r: string)
    ensures |r| == |s|
    ensures forall k :: 0 <= k < |s| ==> r[k] == (if s[k] == from then to else s[k])
  {
    if |s| == 0 then [] else ReplaceChar(s[..|s| - 1], from, to) + [if s[|s| - 1] == from then to else s[|s| - 1]]
  }

  predicate IsDigit(c: char) {
    '0' <= c <= '9'
  }

  /** Decimal value of a string of digits. */
  function DigitsValue(ds: string): nat
    requires AllDigits(ds)
  {
    if |ds| == 0 then 0
    else
      assert IsDigit(ds[|ds| - 1]);
      DigitsValue(ds[..|ds| - 1]) * 10 + (ds[|ds| - 1] as int - '0' as int)
  }

  predicate AllDigits(ds: string) {
    forall k :: 0 <= k < |ds| ==> IsDigit(ds[k])
  }

  /** The digits `u32::from_str` reads: the text after one leading '+'. */
  function Unsigned(s: string): string {
    if |s| > 0 && s[0] == '+' then s[1..] else s
  }

  /** `u32::from_str`: an optional '+', then at least one decimal digit, with
      a value below 2^32. */
  function ParseU32(s: string): (r: Option<u32>)
    ensures r.Some? ==> |s| > 0
    ensures r.Some? && s[0] != '+' ==> forall k :: 0 <= k < |s| ==> IsDigit(s[k])
    ensures r.Some? <==> |Unsigned(s)| > 0 && AllDigits(Unsigned(s)) && DigitsValue(Unsigned(s)) < U32_LIMIT
    ensures r.Some? ==> r.value == DigitsValue(Unsigned(s))
  {
    var ds := Unsigned(s);
    if |ds| == 0 || !AllDigits(ds) then None
    else if DigitsValue(ds) < U32_LIMIT then Some(DigitsValue(ds))
    else None
  }
}
