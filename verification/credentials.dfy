/** The password storage format of User.set_password / User.check_password:
    the stored value is salt + "$" + hex(KDF(password, salt)), where the salt
    is the hex text of 16 random bytes and the KDF is PBKDF2-HMAC-SHA256 with
    100000 iterations, taken here as an opaque deterministic function. */
module Credentials {
  import opened Wrappers
  import opened Text

  type byte = x: int | 0 <= x < 256

  /** secrets.token_hex(16): the salt comes from 16 random bytes. */
  const SaltBytes: nat := 16

  /** PBKDF2-HMAC-SHA256 yields a SHA-256-sized key of 32 bytes. */
  const DigestBytes: nat := 32

  /** The column User.password_hash is a String(128). */
  const MaxStoredLength: nat := 128

  /** The separator between the salt and the hash. */
  const Separator: char := '$'

  type Digest = d: seq<byte> | |d| == DigestBytes witness seq(32, _ => 0)

  /** The key derivation: deterministic in the password and the salt text. */
  type Kdf = (string, string) -> Digest

  predicate IsHexChar(c: char)
  {
    '0' <= c <= '9' || 'a' <= c <= 'f'
  }

  function HexDigit(n: int): (c: char)
    requires 0 <= n < 16
    ensures IsHexChar(c)
  {
    if n < 10 then ('0' as int + n) as char else ('a' as int + n - 10) as char
  }

  /** bytes.hex() and secrets.token_hex: two lower-case hex digits per byte. */
  function Hex(bs: seq<byte>): (h: string)
    ensures |h| == 2 * |bs|
    ensures forall i :: 0 <= i < |h| ==> IsHexChar(h[i])
  {
    if bs == [] then []
    else [HexDigit(bs[0] / 16), HexDigit(bs[0] % 16)] + Hex(bs[1..])
  }

  lemma HexDigitInjective(m: int, n: int)
    requires 0 <= m < 16 && 0 <= n < 16 && HexDigit(m) == HexDigit(n)
    ensures m == n
  {
  }

  /** Hex loses nothing: different bytes give different text. */
  lemma {:induction false} HexInjective(a: seq<byte>, b: seq<byte>)
    requires Hex(a) == Hex(b)
    ensures a == b
  {
    if a != [] {
      assert |b| == |a|;
      var ha, hb := Hex(a), Hex(b);
      assert ha[0] == hb[0] && ha[1] == hb[1];
      HexDigitInjective(a[0] / 16, b[0] / 16);
      HexDigitInjective(a[0] % 16, b[0] % 16);
      assert ha[2..] == Hex(a[1..]) && hb[2..] == Hex(b[1..]);
      HexInjective(a[1..], b[1..]);
      assert a == [a[0]] + a[1..] && b == [b[0]] + b[1..];
    }
  }

  lemma HexHasNoSeparator(bs: seq<byte>)
    ensures Separator !in Hex(bs)
  {
  }

  /** The stored text set_password writes for a given salt. */
  function StoredValue(kdf: Kdf, password: string, salt: string): string
  {
    salt + [Separator] + Hex(kdf(password, salt))
  }

  /** The shape set_password writes: 32 hex digits, the separator, 64 hex digits. */
  predicate IsHexStored(v: string)
  {
    |v| == 2 * SaltBytes + 1 + 2 * DigestBytes && v[2 * SaltBytes] == Separator &&
    forall i :: 0 <= i < |v| && i != 2 * SaltBytes ==> IsHexChar(v[i])
  }

  /** What set_password stores when token_hex draws the bytes entropy: the
      hex shape, within the column. */
  function NewStoredValue(kdf: Kdf, password: string, entropy: seq<byte>): (v: string)
    requires |entropy| == SaltBytes
    ensures IsHexStored(v) && |v| <= MaxStoredLength
  {
    var salt := Hex(entropy);
    var h := Hex(kdf(password, salt));
    var v := StoredValue(kdf, password, salt);
    assert forall i :: 0 <= i < |v| && i != 2 * SaltBytes ==> IsHexChar(v[i]) by {
      forall i | 0 <= i < |v| && i != 2 * SaltBytes ensures IsHexChar(v[i]) {
        if i < 2 * SaltBytes {
          assert v[i] == salt[i];
        } else {
          assert v[i] == h[i - 2 * SaltBytes - 1];
        }
      }
    }
    v
  }

  /** A value of the hex shape splits into its salt and its hash part, both
      ASCII, at its one separator. */
  lemma HexStoredParts(v: string)
    requires IsHexStored(v)
    ensures Count(v, Separator) == 1
    ensures Split(v, Separator) == [v[..2 * SaltBytes], v[2 * SaltBytes + 1..]]
    ensures IsAscii(v[2 * SaltBytes + 1..])
  {
    var salt, h := v[..2 * SaltBytes], v[2 * SaltBytes + 1..];
    assert v == salt + [Separator] + h;
    assert Separator !in salt by {
      forall i | 0 <= i < |salt| ensures salt[i] != Separator {
        assert IsHexChar(v[i]);
      }
    }
    assert Separator !in h && IsAscii(h) by {
      forall i | 0 <= i < |h| ensures h[i] != Separator && h[i] as int < 128 {
        assert IsHexChar(v[2 * SaltBytes + 1 + i]);
      }
    }
    SplitTwo(salt, h, Separator);
  }

  /** The stored value splits at its separator into the 32-character salt
      and the hex of the key derived from the password under that salt. */
  lemma NewStoredValueSplits(kdf: Kdf, password: string, entropy: seq<byte>)
    requires |entropy| == SaltBytes
    ensures var parts := Split(NewStoredValue(kdf, password, entropy), Separator);
            parts == [Hex(entropy), Hex(kdf(password, Hex(entropy)))] && |parts[0]| == 2 * SaltBytes
  {
    HexHasNoSeparator(entropy);
    HexHasNoSeparator(kdf(password, Hex(entropy)));
    SplitTwo(Hex(entropy), Hex(kdf(password, Hex(entropy))), Separator);
  }

  /** Two set_password calls that draw different salt bytes store different
      values, whatever the passwords. */
  lemma NewStoredValueInjective(kdf: Kdf, p: string, q: string, e: seq<byte>, e': seq<byte>)
    requires |e| == SaltBytes && |e'| == SaltBytes && e != e'
    ensures NewStoredValue(kdf, p, e) != NewStoredValue(kdf, q, e')
  {
    NewStoredValueSplits(kdf, p, e);
    NewStoredValueSplits(kdf, q, e');
    if NewStoredValue(kdf, p, e) == NewStoredValue(kdf, q, e') {
      HexInjective(e, e');
    }
  }

  /** Every character is ASCII, as secrets.compare_digest demands of str
      arguments. */
  predicate IsAscii(s: string)
  {
    forall i :: 0 <= i < |s| ==> s[i] as int < 128
  }

  /** check_password either answers, or raises: ValueError at the tuple
      unpacking of app/models.py:31, TypeError in secrets.compare_digest at
      app/models.py:40 when the stored hash part is not ASCII. */
  datatype CheckOutcome = Answer(ok: bool) | ValueError | TypeError

  /** User.check_password as written. */
  function CheckStored(kdf: Kdf, stored: Option<string>, password: string): (r: CheckOutcome)
    ensures stored == None || stored == Some([]) ==> r == Answer(false)
    ensures stored.Some? && Separator !in stored.value ==> r == Answer(false)
    ensures r == ValueError <==> stored.Some? && Count(stored.value, Separator) >= 2
    ensures r == TypeError <==>
              stored.Some? && Count(stored.value, Separator) == 1 &&
              !IsAscii(Split(stored.value, Separator)[1])
    ensures r == Answer(true) ==> stored.Some? && Count(stored.value, Separator) == 1
  {
    if stored.None? || stored.value == [] || Separator !in stored.value then Answer(false)
    else
      var parts := Split(stored.value, Separator);
      if |parts| != 2 then ValueError
      else if !IsAscii(parts[1]) then TypeError
      else Answer(Hex(kdf(password, parts[0])) == parts[1])
  }

  /** Round trip: against what set_password stored for p, check_password(q)
      succeeds exactly when the KDF gives q and p the same key under that
      salt; so p itself always passes, and any q the KDF separates from p
      fails. */
  lemma CheckAfterSet(kdf: Kdf, p: string, q: string, entropy: seq<byte>)
    requires |entropy| == SaltBytes
    ensures CheckStored(kdf, Some(NewStoredValue(kdf, p, entropy)), q)
            == Answer(kdf(q, Hex(entropy)) == kdf(p, Hex(entropy)))
  {
    var v := NewStoredValue(kdf, p, entropy);
    NewStoredValueSplits(kdf, p, entropy);
    HexStoredParts(v);
    assert Separator in v;
    var salt := Hex(entropy);
    if Hex(kdf(q, salt)) == Hex(kdf(p, salt)) {
      HexInjective(kdf(q, salt), kdf(p, salt));
    }
  }

  /** Replacing the stored hash part by any other separator-free ASCII text
      makes the right password fail. */
  lemma TamperedHashRejected(kdf: Kdf, p: string, salt: string, forged: string)
    requires Separator !in salt && Separator !in forged && IsAscii(forged)
    requires forged != Hex(kdf(p, salt))
    ensures CheckStored(kdf, Some(salt + [Separator] + forged), p) == Answer(false)
  {
    SplitTwo(salt, forged, Separator);
    assert (salt + [Separator] + forged)[|salt|] == Separator;
  }

  /** Keeping the hash part but replacing the salt by another
      separator-free one makes the right password fail, whenever the KDF
      tells the two salts apart for that password. */
  lemma TamperedSaltRejected(kdf: Kdf, p: string, salt: string, salt': string)
    requires Separator !in salt'
    requires kdf(p, salt') != kdf(p, salt)
    ensures CheckStored(kdf, Some(salt' + [Separator] + Hex(kdf(p, salt))), p) == Answer(false)
  {
    var h := Hex(kdf(p, salt));
    HexHasNoSeparator(kdf(p, salt));
    assert IsAscii(h) by {
      forall i | 0 <= i < |h| ensures h[i] as int < 128 {
        assert IsHexChar(h[i]);
      }
    }
    if h == Hex(kdf(p, salt')) {
      HexInjective(kdf(p, salt), kdf(p, salt'));
    }
    TamperedHashRejected(kdf, p, salt', h);
  }

  /** As written, a hash part with a character beyond ASCII makes
      compare_digest raise instead of the check answering false. */
  lemma NonAsciiHashRaises(kdf: Kdf, p: string, salt: string, forged: string)
    requires Separator !in salt && Separator !in forged && !IsAscii(forged)
    ensures CheckStored(kdf, Some(salt + [Separator] + forged), p) == TypeError
  {
    SplitTwo(salt, forged, Separator);
    assert (salt + [Separator] + forged)[|salt|] == Separator;
  }

  /** For instance the stored value "s$\U{e9}". */
  lemma AccentedHashRaises(kdf: Kdf, p: string)
    ensures CheckStored(kdf, Some("s$\U{e9}"), p) == TypeError
  {
    assert "s$\U{e9}" == "s" + [Separator] + "\U{e9}";
    assert !IsAscii("\U{e9}") by {
      assert "\U{e9}"[0] as int == 0xE9;
    }
    NonAsciiHashRaises(kdf, p, "s", "\U{e9}");
  }

  /** As written, a stored value with two separators makes check_password
      raise instead of answering false. */
  lemma TwoSeparatorsRaise(kdf: Kdf, password: string)
    ensures CheckStored(kdf, Some("a$b$c"), password) == ValueError
  {
    var v := "a$b$c";
    assert v[1..] == "$b$c" && v[1..][1..] == "b$c" && v[1..][1..][1..] == "$c";
    assert Count("$c", Separator) == 1;
    assert Count(v, Separator) == 2;
  }

  /** check_password failing closed, as it is meant to: every stored value
      that is not exactly salt$hash is refused, and nothing raises. */
  function CheckStoredFailClosed(kdf: Kdf, stored: Option<string>, password: string): (ok: bool)
    ensures ok ==> stored.Some? && Count(stored.value, Separator) == 1
    ensures ok <==> CheckStored(kdf, stored, password) == Answer(true)
    ensures CheckStored(kdf, stored, password).Answer? ==>
              CheckStored(kdf, stored, password) == Answer(ok)
  {
    if stored.None? || Count(stored.value, Separator) != 1 then false
    else
      var parts := Split(stored.value, Separator);
      var h := Hex(kdf(password, parts[0]));
      assert IsAscii(h) by {
        forall i | 0 <= i < |h| ensures h[i] as int < 128 {
          assert IsHexChar(h[i]);
        }
      }
      h == parts[1]
  }

  /** The fail-closed check keeps the round trip of CheckAfterSet. */
  lemma FailClosedAfterSet(kdf: Kdf, p: string, q: string, entropy: seq<byte>)
    requires |entropy| == SaltBytes
    ensures CheckStoredFailClosed(kdf, Some(NewStoredValue(kdf, p, entropy)), q)
            == (kdf(q, Hex(entropy)) == kdf(p, Hex(entropy)))
  {
    CheckAfterSet(kdf, p, q, entropy);
  }
}
