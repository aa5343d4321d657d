/** src/utils.rs: directory entries, the directory filter and the cyrb53
    identity hash. */
module Utils {
  import opened Base

  datatype FileType = Folder | File | Both

  /** A path with the kind it was found as. */
  datatype DefinedFile = DefinedFile(path: Path, ty: FileType) {
    /** `DefinedFile::name`: the last path component, "" when there is none. */
    function Name(): (r: string)
      ensures |path| > 0 ==> r == path[|path| - 1]
      ensures |path| == 0 ==> r == ""
    {
      FileName(path)
    }
  }

  /** One item of a `read_dir` enumeration: its path and whether it is a
      directory (`Path::is_dir`, which follows symbolic links). */
  datatype DirEntry = DirEntry(path: Path, isDir: bool)

  /** `From<DirEntry> for DefinedFile`. */
  function FromEntry(e: DirEntry): (r: DefinedFile)
    ensures r.path == e.path
    ensures r.ty == Folder <==> e.isDir
    ensures r.ty != Both
  {
    DefinedFile(e.path, if e.isDir then Folder else File)
  }

  /** The test `parse_dir` applies to each converted entry. */
  predicate Selected(f: DefinedFile, filter: FileType) {
    !IsHidden(f.Name()) && (filter == Both || f.ty == filter)
  }

  /** What `parse_dir` keeps of the first entries of a listing, in order. */
  function Kept(entries: seq<DirEntry>, filter: FileType): seq<DefinedFile>
  {
    if |entries| == 0 then []
    else
      var f := FromEntry(entries[|entries| - 1]);
      Kept(entries[..|entries| - 1], filter) + (if Selected(f, filter) then [f] else [])
  }

  /** `parse_dir` over the enumeration `listing` of a directory; a directory
      that cannot be read makes the source panic, so callers pass a listing. */
  method ParseDir(listing: seq<DirEntry>, filter: FileType) returns (output: seq<DefinedFile>)
    ensures output == Kept(listing, filter)
  {
    output := [];
    var i := 0;
    while i < |listing|
      invariant 0 <= i <= |listing|
      invariant output == Kept(listing[..i], filter)
    {
      var file := FromEntry(listing[i]);
      assert listing[..i + 1][..i] == listing[..i];
      if IsHidden(file.Name()) {
        i := i + 1;
        continue;
      }
      if filter == Both || file.ty == filter {
        output := output + [file];
      }
      i := i + 1;
    }
    assert listing[..i] == listing;
  }

  /** No hidden entry is ever returned, and nothing of a kind other than the
      requested one. */
  lemma {:induction false} KeptNotHidden(entries: seq<DirEntry>, filter: FileType)
    ensures forall k :: 0 <= k < |Kept(entries, filter)| ==>
      && !IsHidden(Kept(entries, filter)[k].Name())
      && Kept(entries, filter)[k].ty != Both
      && (filter != Both ==> Kept(entries, filter)[k].ty == filter)
  {
    if |entries| > 0 { KeptNotHidden(entries[..|entries| - 1], filter); }
  }

  /** A file is returned exactly when some entry converts to it and passes the
      filter: with `Both` every non-hidden entry, otherwise exactly the
      non-hidden entries of the requested kind. */
  lemma {:induction false} KeptMembership(entries: seq<DirEntry>, filter: FileType, f: DefinedFile)
    ensures f in Kept(entries, filter) <==>
      exists i :: 0 <= i < |entries| && FromEntry(entries[i]) == f && Selected(f, filter)
  {
    if |entries| > 0 {
      var init := entries[..|entries| - 1];
      KeptMembership(init, filter, f);
      if exists i :: 0 <= i < |entries| && FromEntry(entries[i]) == f && Selected(f, filter) {
        var i :| 0 <= i < |entries| && FromEntry(entries[i]) == f && Selected(f, filter);
        if i < |init| { assert init[i] == entries[i]; }
      }
      if f in Kept(init, filter) {
        var i :| 0 <= i < |init| && FromEntry(init[i]) == f && Selected(f, filter);
        assert entries[i] == init[i];
      }
    }
  }

  /** `a` is `b` with some elements dropped and the rest in their order. */
  predicate IsSubsequence<T(==)>(a: seq<T>, b: seq<T>)
  {
    if |b| == 0 then |a| == 0
    else
      || (|a| > 0 && a[|a| - 1] == b[|b| - 1] && IsSubsequence(a[..|a| - 1], b[..|b| - 1]))
      || IsSubsequence(a, b[..|b| - 1])
  }

  function Converted(entries: seq<DirEntry>): (r: seq<DefinedFile>)
    ensures |r| == |entries|
    ensures forall k :: 0 <= k < |entries| ==> r[k] == FromEntry(entries[k])
  {
    if |entries| == 0 then [] else Converted(entries[..|entries| - 1]) + [FromEntry(entries[|entries| - 1])]
  }

  /** `parse_dir` keeps the enumeration order: its output is a subsequence of
      the converted listing. */
  lemma {:induction false} KeptIsSubsequence(entries: seq<DirEntry>, filter: FileType)
    ensures IsSubsequence(Kept(entries, filter), Converted(entries))
  {
    if |entries| > 0 {
      var init := entries[..|entries| - 1];
      var f := FromEntry(entries[|entries| - 1]);
      KeptIsSubsequence(init, filter);
      assert Converted(entries)[..|entries| - 1] == Converted(init);
      var ki := Kept(init, filter);
      var ci := Converted(init);
      if Selected(f, filter) {
        assert Kept(entries, filter) == ki + [f] && (ki + [f])[..|ki|] == ki;
        assert Converted(entries) == ci + [f];
      } else {
        assert Kept(entries, filter) == ki;
      }
    }
  }

  // ---------------------------------------------------------------------------
  // cyrb53

  const MOD64: int := 0x1_0000_0000_0000_0000

  /** A u64 value. */
  type u64 = x: int | 0 <= x < MOD64

  /** Bitwise exclusive or of two naturals (`^`). */
  function Xor(a: nat, b: nat): nat
    decreases a + b
  {
    if a == 0 && b == 0 then 0
    else 2 * Xor(a / 2, b / 2) + (if a % 2 != b % 2 then 1 else 0)
  }

  /** `u64::wrapping_mul` by a constant: the product modulo 2^64. */
  function WrappingMul(a: nat, k: nat): (r: u64)
  {
    (a * k) % MOD64
  }

  /** The scalar value of a character (`ch as u64`). */
  function Code(c: char): nat {
    c as int
  }

  /** One character's update of the state (h1, h2). */
  function Absorb1(h: (nat, nat), c: char): (nat, nat) {
    (WrappingMul(Xor(h.0, Code(c)), 2654435761), WrappingMul(Xor(h.1, Code(c)), 1597334677))
  }

  /** The seed of the hash. */
  const SEED: nat := 1

  /** The seeded start, 0xdeadbeef ^ 1 and 0x41c6ce57 ^ 1 (see `SeededStart`). */
  function Seeded(): (nat, nat) {
    (0xdeadbeee, 0x41c6ce56)
  }

  lemma {:induction false} XorZero(a: nat)
    ensures Xor(a, 0) == a
  {
    if a > 0 { XorZero(a / 2); }
  }

  /** Xor with 1 of an odd number clears its lowest bit. */
  lemma XorOneOdd(a: nat)
    requires a % 2 == 1
    ensures Xor(a, 1) == a - 1
  {
    XorZero(a / 2);
  }

  lemma SeededStart()
    ensures Seeded() == (Xor(0xdeadbeef, SEED), Xor(0x41c6ce57, SEED))
  {
    XorOneOdd(0xdeadbeef);
    XorOneOdd(0x41c6ce57);
  }

  /** The state after the characters of `s`. */
  function Absorb(s: string): (nat, nat)
  {
    if |s| == 0 then Seeded()
    else Absorb1(Absorb(s[..|s| - 1]), s[|s| - 1])
  }

  /** The two final avalanche rounds; `x >> 16` is `x / 2^16`. */
  function Avalanche(h: (nat, nat)): (nat, nat) {
    var h1 := WrappingMul(Xor(h.0, h.0 / 0x1_0000), 2246822507);
    var h1 := Xor(h1, WrappingMul(Xor(h.1, h.1 / 0x2000), 3266489909));
    var h2 := WrappingMul(Xor(h.1, h.1 / 0x1_0000), 2246822507);
    var h2 := Xor(h2, WrappingMul(Xor(h1, h1 / 0x2000), 3266489909));
    (h1, h2)
  }

  /** `2097151 & h2`: 2097151 is 2^21 - 1, so the mask keeps the low 21 bits. */
  function Low21(h2: nat): nat {
    h2 % 0x20_0000
  }

  /** `4294967296 * (2097151 & h2) + h1` in u64, with the addition wrapping
      as in a release build (a debug build would panic on overflow). */
  function Combine(h: (nat, nat)): (r: u64)
  {
    (4294967296 * Low21(h.1) + h.0) % MOD64
  }

  /** The numeric cyrb53 value of `s`. */
  function Cyrb53Value(s: string): u64 {
    Combine(Avalanche(Absorb(s)))
  }

  /** The identity hash: `format!("{:x}", …)` of the cyrb53 value. */
  function Cyrb53(s: string): string {
    Hex(Cyrb53Value(s))
  }

  /** The per-character updates multiply, modulo 2^64, the state xor-ed with
      the character's scalar value, starting from 0xdeadbeef^1 and 0x41c6ce57^1. */
  lemma {:induction false} AbsorbSteps(s: string, c: char)
    ensures Absorb([]) == (Xor(0xdeadbeef, SEED), Xor(0x41c6ce57, SEED))
    ensures Absorb(s + [c]).0 == (Xor(Absorb(s).0, c as int) * 2654435761) % MOD64
    ensures Absorb(s + [c]).1 == (Xor(Absorb(s).1, c as int) * 1597334677) % MOD64
  {
    SeededStart();
    assert (s + [c])[..|s|] == s;
  }

  /** The high term of the final sum stays below 2^53; only the full 64-bit
      `h1` can carry the sum past 2^64. */
  lemma HighTermBound(h2: nat)
    ensures 4294967296 * Low21(h2) < 0x20_0000_0000_0000
  {
  }

  /** `cyrb53` as the source computes it, a loop over the characters. */
  method ComputeCyrb53(str: string) returns (r: string)
    ensures r == Cyrb53(str)
  {
    var h1: nat, h2: nat := Seeded().0, Seeded().1;
    var i := 0;
    while i < |str|
      invariant 0 <= i <= |str|
      invariant (h1, h2) == Absorb(str[..i])
    {
      var code := Code(str[i]);
      assert str[..i + 1][..i] == str[..i];
      h1 := WrappingMul(Xor(h1, code), 2654435761);
      h2 := WrappingMul(Xor(h2, code), 1597334677);
      i := i + 1;
    }
    assert str[..i] == str;
    r := Finalize(h1, h2);
  }

  /** The avalanche and the `{:x}` formatting that end `cyrb53`. */
  method Finalize(h1: nat, h2: nat) returns (r: string)
    ensures r == Hex(Combine(Avalanche((h1, h2))))
  {
    ghost var fin := Avalanche((h1, h2));
    var g1 := WrappingMul(Xor(h1, h1 / 0x1_0000), 2246822507);
    g1 := Xor(g1, WrappingMul(Xor(h2, h2 / 0x2000), 3266489909));
    var g2 := WrappingMul(Xor(h2, h2 / 0x1_0000), 2246822507);
    g2 := Xor(g2, WrappingMul(Xor(g1, g1 / 0x2000), 3266489909));
    assert (g1, g2) == fin;
    r := Hex(Combine((g1, g2)));
  }

  // ---------------------------------------------------------------------------
  // `{:x}` formatting

  predicate IsHexDigit(c: char) {
    '0' <= c <= '9' || 'a' <= c <= 'f'
  }

  function HexValue(c: char): nat {
    if '0' <= c <= '9' then c as int - '0' as int
    else if 'a' <= c <= 'f' then c as int - 'a' as int + 10
    else 0
  }

  /** The lower-case digit of value `d`. */
  function HexDigit(d: nat): (c: char)
    requires d < 16
    ensures IsHexDigit(c) && HexValue(c) == d
    ensures c == '0' <==> d == 0
  {
    if d < 10 then ('0' as int + d) as char else ('a' as int + d - 10) as char
  }

  /** Lower-case hexadecimal rendering without leading zeros; "0" for 0. */
  function Hex(n: nat): (r: string)
    ensures |r| > 0
    ensures forall k :: 0 <= k < |r| ==> IsHexDigit(r[k])
    ensures r[0] == '0' ==> n == 0 && r == "0"
  {
    if n < 16 then [HexDigit(n)]
    else Hex(n / 16) + [HexDigit(n % 16)]
  }

  /** Reading a string of hexadecimal digits back as a number. */
  function ParseHex(s: string): nat {
    if |s| == 0 then 0 else ParseHex(s[..|s| - 1]) * 16 + HexValue(s[|s| - 1])
  }

  /** `Hex` loses nothing: reading its output back gives the number. */
  lemma {:induction false} HexRoundTrip(n: nat)
    ensures ParseHex(Hex(n)) == n
  {
    if n >= 16 {
      HexRoundTrip(n / 16);
      var h := Hex(n / 16) + [HexDigit(n % 16)];
      assert h[..|h| - 1] == Hex(n / 16);
    }
  }

  /** A value below 16^k renders in at most k digits. */
  lemma {:induction false} HexLength(n: nat, k: nat)
    requires n < Pow16(k)
    ensures |Hex(n)| <= k || (n == 0 && |Hex(n)| == 1)
  {
    if k > 0 && n >= 16 {
      HexLength(n / 16, k - 1);
    }
  }

  function Pow16(k: nat): nat {
    if k == 0 then 1 else 16 * Pow16(k - 1)
  }

  /** The identity hash is 1 to 16 lower-case hexadecimal digits, with no
      leading zero unless it is "0". */
  lemma Cyrb53Format(s: string)
    ensures 1 <= |Cyrb53(s)| <= 16
    ensures forall k :: 0 <= k < |Cyrb53(s)| ==> IsHexDigit(Cyrb53(s)[k])
    ensures Cyrb53(s)[0] == '0' ==> Cyrb53(s) == "0"
    ensures ParseHex(Cyrb53(s)) == Cyrb53Value(s)
  {
    assert Pow16(4) == 0x1_0000;
    assert Pow16(8) == 0x1_0000_0000;
    assert Pow16(12) == 0x1_0000_0000_0000;
    HexLength(Cyrb53Value(s), 16);
    HexRoundTrip(Cyrb53Value(s));
  }
}
