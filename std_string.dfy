/** The parts of C++'s std::string and std::size_t that the index parser relies on:
    unsigned 64-bit size arithmetic that wraps, `find` of one character, and `substr`. */
module StdString {

  const SIZE_MODULUS: int := 0x1_0000_0000_0000_0000

  /** std::size_t: an unsigned 64-bit integer. */
  type SizeT = x: int | 0 <= x < SIZE_MODULUS

  /** std::string::npos, the largest size_t, returned by `find` when nothing matches. */
  const NPOS: SizeT := SIZE_MODULUS - 1

  /** A std::string: its size() is always below npos (max_size() < npos). */
  type CppString = s: string | |s| < NPOS

  /** size_t addition, which wraps modulo 2^64 (so npos + 1 == 0).  The two cases are
      stated apart to keep proofs cheap; WrapsModulo states that together they are the sum
      modulo 2^64. */
  function Add(a: SizeT, b: SizeT): (r: SizeT)
    ensures a + b < SIZE_MODULUS ==> r == a + b
    ensures a + b >= SIZE_MODULUS ==> r == a + b - SIZE_MODULUS
  {
    if a + b < SIZE_MODULUS then a + b else a + b - SIZE_MODULUS
  }

  /** size_t subtraction, which wraps modulo 2^64 (so 0 - 1 == npos); see WrapsModulo. */
  function Sub(a: SizeT, b: SizeT): (r: SizeT)
    ensures a >= b ==> r == a - b
    ensures a < b ==> r == a - b + SIZE_MODULUS
  {
    if a >= b then a - b else a - b + SIZE_MODULUS
  }

  /** Add and Sub are arithmetic modulo 2^64; in particular npos + 1 wraps to 0 and 0 - 1 to
      npos, the two wraps the index parser runs into. */
  lemma WrapsModulo(a: SizeT, b: SizeT)
    ensures Add(a, b) == (a + b) % SIZE_MODULUS
    ensures Sub(a, b) == (a - b) % SIZE_MODULUS
    ensures Add(NPOS, 1) == 0 && Sub(0, 1) == NPOS
  {
  }

  /** s.find(c): the index of the first occurrence of c in s, or npos when there is none. */
  function Find(s: CppString, c: char): (r: SizeT)
    ensures r == NPOS <==> c !in s
    ensures r != NPOS ==> r < |s| && s[r] == c && c !in s[..r]
  {
    FindFrom(s, c, 0)
  }

  /** A character found at p with no earlier occurrence is what `Find` returns. */
  lemma FindAt(s: CppString, c: char, p: nat)
    requires p < |s| && s[p] == c && c !in s[..p]
    ensures Find(s, c) == p
  {
    assert c in s;
  }

  /** The search of `Find`, resumed at index i once s[..i] is known not to hold c. */
  function FindFrom(s: CppString, c: char, i: nat): (r: SizeT)
    requires i <= |s|
    requires c !in s[..i]
    ensures r == NPOS <==> c !in s
    ensures r != NPOS ==> i <= r < |s| && s[r] == c && c !in s[..r]
    decreases |s| - i
  {
    if i == |s| then
      assert s[..i] == s;
      NPOS
    else if s[i] == c then
      i
    else
      assert s[..i + 1] == s[..i] + [s[i]];
      FindFrom(s, c, i + 1)
  }

  /** s.substr(pos, n): the characters of s from pos on, at most n of them.  C++ throws
      std::out_of_range when pos > size(); the requires states that every caller avoids it. */
  function Substr(s: CppString, pos: SizeT, n: SizeT): (r: CppString)
    requires pos <= |s|
    ensures |r| == if n < |s| - pos then n else |s| - pos
    ensures pos + |r| <= |s| && r == s[pos .. pos + |r|]
  {
    s[pos .. if n < |s| - pos then pos + n else |s|]
  }
}
