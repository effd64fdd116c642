/**
 * The stored-password format of `crypto.hash` and `crypto.compare` in
 * server/auth.ts (lines 13-29). scrypt is a parameter `kdf` (a function from
 * password and salt string to 64 bytes); `randomBytes(16)` is the parameter
 * `salt`. `Buffer.from(_, "hex")`, `toString("hex")`, `split(".")` and the
 * length check of `timingSafeEqual` are written out.
 */
module PasswordHash {
  import opened Wrappers

  type byte = b: int | 0 <= b < 0x100

  /** scrypt with a 64-byte key length, as `scryptAsync(_, _, 64)` calls it. */
  type Kdf = f: (string, string) -> seq<byte> | forall p, s :: |f(p, s)| == 64
    witness (p: string, s: string) => seq(64, _ => 0)

  const Separator: char := '.'

  // ---------------------------------------------------------------------
  // Hex encoding, as Node's Buffer does it
  // ---------------------------------------------------------------------

  predicate IsHexDigit(c: char) {
    ('0' <= c <= '9') || ('a' <= c <= 'f') || ('A' <= c <= 'F')
  }

  predicate IsLowerHex(s: string) {
    forall i :: 0 <= i < |s| ==> ('0' <= s[i] <= '9') || ('a' <= s[i] <= 'f')
  }

  function HexValue(c: char): (v: nat)
    requires IsHexDigit(c)
    ensures v < 16
  {
    if '0' <= c <= '9' then c as int - '0' as int
    else if 'a' <= c <= 'f' then c as int - 'a' as int + 10
    else c as int - 'A' as int + 10
  }

  function HexChar(n: nat): (c: char)
    requires n < 16
    ensures IsHexDigit(c) && HexValue(c) == n
    ensures ('0' <= c <= '9') || ('a' <= c <= 'f')
  {
    if n < 10 then ('0' as int + n) as char else ('a' as int + n - 10) as char
  }

  /** `buf.toString("hex")`: two lower-case digits per byte, high nibble first. */
  function Hex(b: seq<byte>): (r: string)
    ensures |r| == 2 * |b|
    ensures IsLowerHex(r)
    ensures Separator !in r
  {
    if b == [] then [] else [HexChar(b[0] / 16), HexChar(b[0] % 16)] + Hex(b[1..])
  }

  /**
   * `Buffer.from(s, "hex")`: decodes pairs of digits of either case from the
   * start and stops at the first pair that is not two hex digits, or at a
   * trailing odd character.
   */
  function FromHex(s: string): (r: seq<byte>)
    ensures |r| <= |s| / 2
  {
    if |s| < 2 || !IsHexDigit(s[0]) || !IsHexDigit(s[1]) then []
    else [HexValue(s[0]) * 16 + HexValue(s[1])] + FromHex(s[2..])
  }

  /** Decoding what `Hex` wrote gives back the bytes. */
  lemma {:induction false} FromHexOfHex(b: seq<byte>)
    ensures FromHex(Hex(b)) == b
  {
    if b != [] {
      var s := Hex(b);
      assert s[2..] == Hex(b[1..]);
      FromHexOfHex(b[1..]);
    }
  }

  // ---------------------------------------------------------------------
  // String.prototype.split with a one-character separator
  // ---------------------------------------------------------------------

  /** `s.split(sep)`: the pieces between separators, at least one, none holding `sep`. */
  function Split(s: string, sep: char): (r: seq<string>)
    ensures |r| >= 1
    ensures forall i :: 0 <= i < |r| ==> sep !in r[i]
    ensures Join(r, sep) == s
  {
    if s == [] then [[]]
    else if s[0] == sep then [[]] + Split(s[1..], sep)
    else
      var t := Split(s[1..], sep);
      [[s[0]] + t[0]] + t[1..]
  }

  /** `pieces.join(sep)`. */
  function Join(pieces: seq<string>, sep: char): string {
    if pieces == [] then []
    else if |pieces| == 1 then pieces[0]
    else pieces[0] + [sep] + Join(pieces[1..], sep)
  }

  /** Splitting a joined list of separator-free pieces gives the pieces back. */
  lemma {:induction false} SplitOfJoin(pieces: seq<string>, sep: char)
    requires |pieces| >= 1
    requires forall i :: 0 <= i < |pieces| ==> sep !in pieces[i]
    ensures Split(Join(pieces, sep), sep) == pieces
  {
    if |pieces| == 1 {
      SplitOfSepFree(pieces[0], sep);
    } else {
      SplitOfJoin(pieces[1..], sep);
      SplitAfterSepFree(pieces[0], Join(pieces[1..], sep), sep);
      assert pieces == [pieces[0]] + pieces[1..];
    }
  }

  lemma {:induction false} SplitOfSepFree(s: string, sep: char)
    requires sep !in s
    ensures Split(s, sep) == [s]
  {
    if s != [] {
      SplitOfSepFree(s[1..], sep);
      assert [s[0]] + s[1..] == s;
    }
  }

  /** The split has a second piece exactly when the separator occurs. */
  lemma SplitPieces(s: string, sep: char)
    ensures |Split(s, sep)| == 1 <==> sep !in s
  {
    if sep !in s {
      SplitOfSepFree(s, sep);
    }
  }

  lemma {:induction false} SplitAfterSepFree(a: string, b: string, sep: char)
    requires sep !in a
    ensures Split(a + [sep] + b, sep) == [a] + Split(b, sep)
  {
    var s := a + [sep] + b;
    if a == [] {
      assert s[1..] == b;
    } else {
      assert s[1..] == a[1..] + [sep] + b;
      SplitAfterSepFree(a[1..], b, sep);
      assert [a[0]] + a[1..] == a;
    }
  }

  // ---------------------------------------------------------------------
  // crypto.hash and crypto.compare
  // ---------------------------------------------------------------------

  /** `crypto.hash(password)` with `randomBytes(16)` returning `salt`. */
  function Hash(password: string, salt: seq<byte>, kdf: Kdf): (stored: string)
    ensures |stored| == 2 * 64 + 1 + 2 * |salt|
    ensures Split(stored, Separator) == [Hex(kdf(password, Hex(salt))), Hex(salt)]
  {
    var saltHex := Hex(salt);
    var hashHex := Hex(kdf(password, saltHex));
    SplitOfJoin([hashHex, saltHex], Separator);
    assert Join([hashHex, saltHex], Separator) == hashHex + [Separator] + saltHex;
    hashHex + [Separator] + saltHex
  }

  /** What makes `crypto.compare` throw. */
  datatype CompareError =
    | MissingSalt      // no "." in the record: scrypt is called with an undefined salt
    | LengthMismatch   // timingSafeEqual on buffers of different lengths

  /**
   * `crypto.compare(supplied, stored)`: splits the record on ".", decodes
   * the first piece, derives a key from the supplied password and the second
   * piece, and compares the two buffers. Pieces after the second are
   * ignored. It throws for want of a salt exactly when the record has no
   * ".", and it answers only when the first piece decodes to 64 bytes.
   */
  function Compare(supplied: string, stored: string, kdf: Kdf): (r: Result<bool, CompareError>)
    ensures r == Failure(MissingSalt) <==> Separator !in stored
    ensures r.Success? ==> |FromHex(Split(stored, Separator)[0])| == 64
  {
    SplitPieces(stored, Separator);
    var pieces := Split(stored, Separator);
    if |pieces| < 2 then Failure(MissingSalt)
    else
      var expected := FromHex(pieces[0]);
      var actual := kdf(supplied, pieces[1]);
      if |expected| != |actual| then Failure(LengthMismatch)
      else Success(expected == actual)
  }

  /**
   * A record written by `Hash` from 16 salt bytes is 161 characters: 128
   * lower-case hex digits, ".", and 32 lower-case hex digits.
   */
  lemma HashFormat(password: string, salt: seq<byte>, kdf: Kdf)
    requires |salt| == 16
    ensures var stored := Hash(password, salt, kdf);
      && |stored| == 161
      && stored[..128] == Hex(kdf(password, Hex(salt)))
      && stored[128] == Separator
      && stored[129..] == Hex(salt)
      && IsLowerHex(stored[..128]) && IsLowerHex(stored[129..])
  {
    var saltHex := Hex(salt);
    var hashHex := Hex(kdf(password, saltHex));
    var stored := Hash(password, salt, kdf);
    assert stored == hashHex + [Separator] + saltHex;
    assert stored[..128] == hashHex;
    assert stored[129..] == saltHex;
  }

  /**
   * Comparing a password against a record written by `Hash` never throws and
   * answers whether the key derived from it with the same salt is the stored
   * one.
   */
  lemma CompareAgainstHash(supplied: string, password: string, salt: seq<byte>, kdf: Kdf)
    ensures Compare(supplied, Hash(password, salt, kdf), kdf)
      == Success(kdf(supplied, Hex(salt)) == kdf(password, Hex(salt)))
  {
    FromHexOfHex(kdf(password, Hex(salt)));
  }

  /** `compare(pw, hash(pw))` is true, because scrypt is a function. */
  lemma CompareOwnHash(password: string, salt: seq<byte>, kdf: Kdf)
    ensures Compare(password, Hash(password, salt, kdf), kdf) == Success(true)
  {
    CompareAgainstHash(password, password, salt, kdf);
  }

}
