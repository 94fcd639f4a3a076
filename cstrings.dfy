/**
 * The hand-written string primitives of the `helpers` namespace: strlen,
 * strcmp, strncpy and memset over NUL-terminated byte buffers.
 *
 * A buffer is a `seq<Byte>` (read-only arguments) or an `array<Byte>`
 * (buffers written cell by cell). A cell holds the bit pattern of a `char`
 * as a byte 0..255; where the source compares or adds characters it uses
 * their value as a signed `char` (CharValue).
 */
module CStrings {

  /** One `char` cell: its bit pattern, as an unsigned byte. */
  type Byte = b: int | 0 <= b < 256

  /** The value of a `char` holding byte c: two's complement, 8 bits. */
  function CharValue(c: Byte): (v: int)
    ensures -128 <= v < 128 && v % 256 == c
  {
    if c < 128 then c else c - 256
  }

  const NUL: Byte := 0

  /** Size of every key and value buffer of the map, terminator included. */
  const MAX_CSTRING_SIZE: nat := 21

  /** Index of the first NUL of `s`, or `|s|` when `s` holds none. */
  function CLen(s: seq<Byte>): (n: nat)
    ensures n <= |s|
    ensures forall i :: 0 <= i < n ==> s[i] != NUL
    ensures n < |s| ==> s[n] == NUL
  {
    if s == [] || s[0] == NUL then 0 else 1 + CLen(s[1..])
  }

  /** A buffer holds a C string when a NUL occurs in it. */
  predicate Terminated(s: seq<Byte>) {
    CLen(s) < |s|
  }

  /** The characters of the C string a buffer starts with. */
  function CStr(s: seq<Byte>): (r: seq<Byte>)
    ensures NUL !in r && r <= s
    ensures Terminated(s) ==> s[|r|] == NUL
  {
    s[..CLen(s)]
  }

  /** A string that fits a key or value buffer with its terminator. */
  predicate Fits(s: seq<Byte>) {
    |s| < MAX_CSTRING_SIZE && NUL !in s
  }

  /** A terminated buffer whose string fits a key or value buffer. */
  predicate FitsBuffer(buf: seq<Byte>) {
    Terminated(buf) && CLen(buf) < MAX_CSTRING_SIZE
  }

  /** `n` NUL cells. */
  function Nuls(n: nat): (r: seq<Byte>)
    ensures |r| == n && forall i :: 0 <= i < n ==> r[i] == NUL
  {
    if n == 0 then [] else Nuls(n - 1) + [NUL]
  }

  /** `s` stored in a fresh buffer of MAX_CSTRING_SIZE cells, NUL-padded. */
  function Pad(s: seq<Byte>): (r: seq<Byte>)
    requires Fits(s)
    ensures |r| == MAX_CSTRING_SIZE && Terminated(r) && CStr(r) == s
  {
    CLenOfTerminated(s, Nuls(MAX_CSTRING_SIZE - |s|));
    s + Nuls(MAX_CSTRING_SIZE - |s|)
  }

  /** The string stored in a buffer ends at its first NUL. */
  lemma CLenOfTerminated(s: seq<Byte>, rest: seq<Byte>)
    requires NUL !in s && rest != [] && rest[0] == NUL
    ensures CLen(s + rest) == |s|
  {
    assert (s + rest)[|s|] == NUL;
    assert forall i :: 0 <= i < |s| ==> (s + rest)[i] == s[i];
  }

  // ---------------------------------------------------------------- strlen

  /** helpers::strlen: counts the characters before the terminating NUL. */
  method Strlen(str: seq<Byte>) returns (size: nat)
    requires Terminated(str)
    ensures size < |str| && str[size] == NUL
    ensures forall i :: 0 <= i < size ==> str[i] != NUL
    ensures size == |CStr(str)|
  {
    size := 0;
    while str[size] != NUL
      invariant size <= CLen(str)
      decreases CLen(str) - size
    {
      size := size + 1;
    }
  }

  // ---------------------------------------------------------------- strcmp

  /**
   * Three-way comparison of two strings: the order of the first differing
   * characters as signed `char`s, or -1 / 1 for the one that ends first, or
   * 0 when equal.
   */
  function Compare(a: seq<Byte>, b: seq<Byte>): (r: int)
    ensures -1 <= r <= 1
  {
    if a == [] || b == [] then
      (if a == [] && b == [] then 0 else if a == [] then -1 else 1)
    else if a[0] != b[0] then
      (if CharValue(a[0]) < CharValue(b[0]) then -1 else 1)
    else
      Compare(a[1..], b[1..])
  }

  /** Strings compare equal exactly when they are the same string. */
  lemma {:induction false} CompareZeroIff(a: seq<Byte>, b: seq<Byte>)
    ensures Compare(a, b) == 0 <==> a == b
  {
    if a != [] && b != [] && a[0] == b[0] {
      CompareZeroIff(a[1..], b[1..]);
      if a[1..] == b[1..] {
        assert a == [a[0]] + a[1..] && b == [b[0]] + b[1..];
      }
    }
  }

  /** Swapping the arguments flips the sign. */
  lemma {:induction false} CompareAntisymmetric(a: seq<Byte>, b: seq<Byte>)
    ensures Compare(b, a) == -Compare(a, b)
  {
    if a != [] && b != [] && a[0] == b[0] {
      CompareAntisymmetric(a[1..], b[1..]);
    }
  }

  /** A common prefix does not affect the comparison. */
  lemma {:induction false} CompareSkipsCommonPrefix(a: seq<Byte>, b: seq<Byte>, k: nat)
    requires k <= |a| && k <= |b| && a[..k] == b[..k]
    ensures Compare(a, b) == Compare(a[k..], b[k..])
  {
    if k > 0 {
      assert a[0] == a[..k][0] && b[0] == b[..k][0];
      assert a[1..][..k - 1] == a[..k][1..] && b[1..][..k - 1] == b[..k][1..];
      CompareSkipsCommonPrefix(a[1..], b[1..], k - 1);
      assert a[1..][k - 1..] == a[k..] && b[1..][k - 1..] == b[k..];
    }
  }

  /** The first differing character decides the result. */
  lemma CompareAtFirstDifference(a: seq<Byte>, b: seq<Byte>, k: nat)
    requires k < |a| && k < |b| && a[..k] == b[..k] && a[k] != b[k]
    ensures Compare(a, b) == if CharValue(a[k]) < CharValue(b[k]) then -1 else 1
  {
    CompareSkipsCommonPrefix(a, b, k);
  }

  /** A proper prefix compares less than the longer string. */
  lemma ComparePrefixIsLess(a: seq<Byte>, b: seq<Byte>)
    requires |a| < |b| && a == b[..|a|]
    ensures Compare(a, b) == -1 && Compare(b, a) == 1
  {
    assert a[..|a|] == b[..|a|];
    CompareSkipsCommonPrefix(a, b, |a|);
    CompareAntisymmetric(a, b);
  }

  /** One step of the comparison from position i. */
  lemma CompareFrom(a: seq<Byte>, b: seq<Byte>, i: nat)
    requires i <= |a| && i <= |b|
    ensures Compare(a[i..], b[i..]) ==
      if i == |a| || i == |b| then (if i == |a| && i == |b| then 0 else if i == |a| then -1 else 1)
      else if a[i] != b[i] then (if CharValue(a[i]) < CharValue(b[i]) then -1 else 1)
      else Compare(a[i + 1..], b[i + 1..])
  {
    if i < |a| && i < |b| {
      assert a[i..][0] == a[i] && b[i..][0] == b[i];
      assert a[i..][1..] == a[i + 1..] && b[i..][1..] == b[i + 1..];
    }
  }

  /** helpers::strcmp: compares two C strings up to their terminators. */
  method Strcmp(str1: seq<Byte>, str2: seq<Byte>) returns (r: int)
    requires Terminated(str1) && Terminated(str2)
    ensures r == Compare(CStr(str1), CStr(str2))
  {
    ghost var a, b := CStr(str1), CStr(str2);
    var i := 0;
    while str1[i] != NUL && str2[i] != NUL
      invariant i <= |a| && i <= |b|
      invariant Compare(a, b) == Compare(a[i..], b[i..])
      decreases |a| - i
    {
      CompareFrom(a, b, i);
      if str1[i] != str2[i] {
        return if CharValue(str1[i]) < CharValue(str2[i]) then -1 else 1;
      }
      i := i + 1;
    }
    CompareFrom(a, b, i);
    r := if str1[i] == NUL && str2[i] == NUL then 0 else if str1[i] == NUL then -1 else 1;
  }

  // --------------------------------------------------------------- strncpy

  /**
   * The first `n` cells strncpy(dest, src, n) leaves in `dest`: the
   * characters of `src` before its first NUL, at most `n` of them, then NULs.
   */
  function Padded(src: seq<Byte>, n: nat): (r: seq<Byte>)
    requires n <= |src| || Terminated(src)
    ensures |r| == n
  {
    var m := if CLen(src) < n then CLen(src) else n;
    src[..m] + Nuls(n - m)
  }

  /** When the string is shorter than `n`, the copy holds the same C string. */
  lemma StrncpyKeepsString(src: seq<Byte>, n: nat)
    requires Terminated(src) && CLen(src) < n
    ensures Terminated(Padded(src, n)) && CStr(Padded(src, n)) == CStr(src)
    ensures forall i :: CLen(src) <= i < n ==> Padded(src, n)[i] == NUL
  {
    CLenOfTerminated(CStr(src), Nuls(n - CLen(src)));
  }

  /** When the string has `n` or more characters, the copy has no terminator. */
  lemma StrncpyTruncates(src: seq<Byte>, n: nat)
    requires n <= |src| && n <= CLen(src)
    ensures Padded(src, n) == src[..n] && !Terminated(Padded(src, n))
  {
    assert Padded(src, n) == src[..n];
  }

  /** Copying a map buffer into a fresh map buffer yields `Pad` of its string. */
  lemma PaddedIsPad(src: seq<Byte>)
    requires FitsBuffer(src)
    ensures Fits(CStr(src)) && Padded(src, MAX_CSTRING_SIZE) == Pad(CStr(src))
  {
  }

  /** helpers::strncpy: writes exactly `n` cells of `dest`. */
  method Strncpy(dest: array<Byte>, src: seq<Byte>, n: nat)
    requires n <= dest.Length
    requires n <= |src| || Terminated(src)
    modifies dest
    ensures dest[..n] == Padded(src, n)
    ensures forall i :: n <= i < dest.Length ==> dest[i] == old(dest[i])
  {
    var s := 0;  // how far src_ptr has advanced
    for i := 0 to n
      invariant s == if CLen(src) < i then CLen(src) else i
      invariant forall j :: 0 <= j < i ==> dest[j] == if j < CLen(src) then src[j] else NUL
      invariant forall j :: n <= j < dest.Length ==> dest[j] == old(dest[j])
    {
      if src[s] != NUL {
        dest[i] := src[s];
        s := s + 1;
      } else {
        dest[i] := NUL;
      }
    }
  }

  // ---------------------------------------------------------------- memset

  /** helpers::memset: sets the first `num` cells to `value` cast to unsigned char. */
  method Memset(ptr: array<Byte>, value: int, num: nat)
    requires num <= ptr.Length
    modifies ptr
    ensures forall i :: 0 <= i < num ==> ptr[i] == value % 256
    ensures forall i :: num <= i < ptr.Length ==> ptr[i] == old(ptr[i])
  {
    for i := 0 to num
      invariant forall j :: 0 <= j < i ==> ptr[j] == value % 256
      invariant forall j :: i <= j < ptr.Length ==> ptr[j] == old(ptr[j])
    {
      ptr[i] := value % 256;
    }
  }
}
