/** pkg/password/password.go: salted SHA-256 password hashes written as
    lowercase hexadecimal, and the check against a stored hash. SHA-256
    (FIPS 180-4) is not modelled: it is a parameter, any function from bytes
    to a 32-byte digest. Go strings are byte strings, so passwords, salts and
    the hash input are byte sequences. */
module Password {
  import opened Common

  /** A SHA-256 digest: 32 bytes. */
  type Digest = d: seq<byte> | |d| == 32 witness seq(32, _ => 0)

  /** The hash function the manager uses. */
  type Hasher = seq<byte> -> Digest

  datatype PasswordManager = PasswordManager(salt: seq<byte>)

  predicate IsLowerHex(c: char)
  {
    '0' <= c <= '9' || 'a' <= c <= 'f'
  }

  function HexDigit(n: nat): (c: char)
    requires n < 16
    ensures IsLowerHex(c)
  {
    if n < 10 then ('0' as int + n) as char else ('a' as int + n - 10) as char
  }

  function HexValue(c: char): (n: nat)
    requires IsLowerHex(c)
    ensures n < 16 && HexDigit(n) == c
  {
    if c <= '9' then c as int - '0' as int else c as int - 'a' as int + 10
  }

  /** fmt's %x of a byte array: two lowercase digits per byte, high nibble
      first. */
  function Hex(bs: seq<byte>): (s: string)
    ensures |s| == 2 * |bs|
    ensures forall i :: 0 <= i < |s| ==> IsLowerHex(s[i])
  {
    if |bs| == 0 then ""
    else [HexDigit(bs[0] as nat / 16), HexDigit(bs[0] as nat % 16)] + Hex(bs[1..])
  }

  /** Reading lowercase hexadecimal back: None for an odd length or a
      character that is not a lowercase hex digit. */
  function Unhex(s: string): (r: Option<seq<byte>>)
    ensures r.Some? ==> 2 * |r.value| == |s|
  {
    if |s| == 0 then Some([])
    else if |s| == 1 || !IsLowerHex(s[0]) || !IsLowerHex(s[1]) then None
    else match Unhex(s[2..])
      case None => None
      case Some(rest) => Some([(HexValue(s[0]) * 16 + HexValue(s[1])) as byte] + rest)
  }

  /** Reading the hex back gives the bytes. */
  lemma {:induction false} UnhexHex(bs: seq<byte>)
    ensures Unhex(Hex(bs)) == Some(bs)
    decreases |bs|
  {
    if |bs| > 0 {
      var s := Hex(bs);
      assert s[2..] == Hex(bs[1..]);
      UnhexHex(bs[1..]);
      var b := bs[0] as nat;
      assert HexValue(s[0]) == b / 16 && HexValue(s[1]) == b % 16;
      assert [bs[0]] + bs[1..] == bs;
    }
  }

  /** A string that reads back as bytes is their hex. */
  lemma {:induction false} HexUnhex(s: string)
    requires Unhex(s).Some?
    ensures Hex(Unhex(s).value) == s
    decreases |s|
  {
    if |s| > 0 {
      HexUnhex(s[2..]);
      var rest := Unhex(s[2..]).value;
      var v := HexValue(s[0]) * 16 + HexValue(s[1]);
      assert Unhex(s).value == [v as byte] + rest;
      assert ([v as byte] + rest)[1..] == rest;
      assert v / 16 == HexValue(s[0]) && v % 16 == HexValue(s[1]);
      assert s == [s[0], s[1]] + s[2..];
    }
  }

  /** Hex writes different bytes differently. */
  lemma HexInjective(a: seq<byte>, b: seq<byte>)
    ensures Hex(a) == Hex(b) ==> a == b
  {
    if Hex(a) == Hex(b) {
      UnhexHex(a);
      UnhexHex(b);
    }
  }

  /** HashPassword: the hex of the digest of the password followed by the
      salt. */
  function HashPassword(pm: PasswordManager, sha: Hasher, password: seq<byte>): string
  {
    Hex(sha(password + pm.salt))
  }

  /** CheckPassword: the password's hash equals the stored one. */
  predicate CheckPassword(pm: PasswordManager, sha: Hasher, password: seq<byte>, hashed: string)
  {
    HashPassword(pm, sha, password) == hashed
  }

  /** A hash is 64 lowercase hex digits, and it depends on nothing but the
      bytes of password and salt together. */
  lemma HashShape(pm: PasswordManager, sha: Hasher, password: seq<byte>, pm': PasswordManager, password': seq<byte>)
    ensures |HashPassword(pm, sha, password)| == 64
    ensures forall i :: 0 <= i < 64 ==> IsLowerHex(HashPassword(pm, sha, password)[i])
    ensures password + pm.salt == password' + pm'.salt ==> HashPassword(pm, sha, password) == HashPassword(pm', sha, password')
  {
  }

  /** A password checks against its own hash. */
  lemma CheckOwnHash(pm: PasswordManager, sha: Hasher, password: seq<byte>)
    ensures CheckPassword(pm, sha, password, HashPassword(pm, sha, password))
  {
  }

  /** A stored hash is accepted exactly when it is lowercase hex that reads
      back as the digest of the password and salt; an upper-case or
      malformed hash never matches. */
  lemma CheckPasswordIff(pm: PasswordManager, sha: Hasher, password: seq<byte>, hashed: string)
    ensures CheckPassword(pm, sha, password, hashed) <==> Unhex(hashed) == Some(sha(password + pm.salt))
    ensures CheckPassword(pm, sha, password, hashed) ==> |hashed| == 64
  {
    var d := sha(password + pm.salt);
    UnhexHex(d);
    if Unhex(hashed) == Some(d) {
      HexUnhex(hashed);
    }
  }

  /** Two passwords check against the same stored hash only when their
      salted inputs have the same digest. */
  lemma CheckSameHash(pm: PasswordManager, sha: Hasher, p: seq<byte>, q: seq<byte>, hashed: string)
    requires CheckPassword(pm, sha, p, hashed) && CheckPassword(pm, sha, q, hashed)
    ensures sha(p + pm.salt) == sha(q + pm.salt)
  {
    HexInjective(sha(p + pm.salt), sha(q + pm.salt));
  }
}
