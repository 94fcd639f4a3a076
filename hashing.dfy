/**
 * Map::hash: a djb2-style string hash in a 64-bit `size_t`. The running
 * value starts at 5381 and takes `h * 33 + c` for each character (written
 * `(h << 5) + h + c` in C, wrapping modulo 2^64); the key length is added
 * at the end. `c` is a plain `char`, signed on the platforms the program
 * targets, so a byte from 128 up adds its value minus 256, which the
 * conversion to `size_t` turns into a wrap-around.
 */
module Hashing {
  import opened CStrings

  /** 2^64: `size_t` arithmetic wraps modulo this. */
  const WORD: nat := 0x1_0000_0000_0000_0000

  const SEED: nat := 5381

  /** The running hash value once every character of `s` has been consumed. */
  function Running(s: seq<Byte>): (h: nat)
    ensures h < WORD
    decreases |s|
  {
    if s == [] then SEED else (Running(s[..|s| - 1]) * 33 + CharValue(s[|s| - 1])) % WORD
  }

  /** The hash of the string `s` (the characters before the key's NUL). */
  function Hash(s: seq<Byte>): (h: nat)
    ensures h < WORD
  {
    (Running(s) + |s|) % WORD
  }

  /** The same recurrence over unbounded integers: the value without wrap-around. */
  function Exact(s: seq<Byte>): int
    decreases |s|
  {
    if s == [] then SEED else Exact(s[..|s| - 1]) * 33 + CharValue(s[|s| - 1])
  }

  lemma ModStep(a: int, c: int)
    ensures ((a % WORD) * 33 + c) % WORD == (a * 33 + c) % WORD
  {
    var q := a / WORD;
    assert a == q * WORD + a % WORD;
    assert a * 33 + c == (a % WORD) * 33 + c + (q * 33) * WORD;
  }

  lemma ModPlus(a: int, c: int)
    ensures ((a % WORD) + c) % WORD == (a + c) % WORD
  {
    var q := a / WORD;
    assert a == q * WORD + a % WORD;
    assert a + c == (a % WORD) + c + q * WORD;
  }

  /** Wrapping after every step is the same as wrapping the exact value once. */
  lemma {:induction false} RunningIsExactModWord(s: seq<Byte>)
    ensures Running(s) == Exact(s) % WORD
    decreases |s|
  {
    if s != [] {
      var init := s[..|s| - 1];
      RunningIsExactModWord(init);
      ModStep(Exact(init), CharValue(s[|s| - 1]));
    }
  }

  /** The hash is the exact polynomial value plus the length, reduced modulo 2^64. */
  lemma HashIsExactModWord(s: seq<Byte>)
    ensures Hash(s) == (Exact(s) + |s|) % WORD
  {
    RunningIsExactModWord(s);
    ModPlus(Exact(s), |s|);
  }

  /** Map::hash, computed with the loop of the source. */
  method ComputeHash(key: seq<Byte>) returns (hValue: nat)
    requires Terminated(key)
    ensures hValue == Hash(CStr(key))
  {
    hValue := SEED;
    var length := Strlen(key);
    var i := 0;
    while i < length
      invariant i <= length
      invariant hValue == Running(key[..i])
    {
      assert key[..i + 1][..i] == key[..i];
      // ((hValue << 5) + hValue) + key[i], all in size_t
      hValue := (hValue * 33 + CharValue(key[i])) % WORD;
      i := i + 1;
    }
    assert key[..length] == CStr(key);
    hValue := (hValue + length) % WORD;
  }
}
