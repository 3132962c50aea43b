/**
 * The primary keys of users and babies are UUIDs (users/models.py:13, 39).  The activation
 * token carries `str(user.id)`, and the activation view filters by that text again, which
 * Django parses back into a UUID.  A UUID is modelled as its 128-bit integer value.
 */
module Uuid {
  import opened Wrappers

  function Pow16(k: nat): (p: nat)
    ensures p >= 1
  {
    if k == 0 then 1 else 16 * Pow16(k - 1)
  }

  /** A 128-bit value, the range of `uuid.UUID.int`. */
  predicate IsUuid(u: nat) {
    u < Pow16(32)
  }

  predicate IsHexDigit(c: char) {
    ('0' <= c <= '9') || ('a' <= c <= 'f') || ('A' <= c <= 'F')
  }

  predicate AllHex(s: string) {
    forall i :: 0 <= i < |s| ==> IsHexDigit(s[i])
  }

  /** The lower-case digit Python's `'%032x'` writes for `d`. */
  function HexChar(d: nat): (c: char)
    requires d < 16
    ensures IsHexDigit(c) && c != '-' && !('A' <= c <= 'F')
  {
    if d < 10 then ('0' as int + d) as char else ('a' as int + d - 10) as char
  }

  /** The value `int(c, 16)` gives a hex digit of either case. */
  function DigitValue(c: char): (d: nat)
    requires IsHexDigit(c)
    ensures d < 16
  {
    if '0' <= c <= '9' then c as int - '0' as int
    else if 'a' <= c <= 'f' then c as int - 'a' as int + 10
    else c as int - 'A' as int + 10
  }

  /** `k` hex digits of `n`, most significant first. */
  function Hex(n: nat, k: nat): (s: string)
    ensures |s| == k && AllHex(s)
    ensures forall i :: 0 <= i < |s| ==> s[i] != '-' && !('A' <= s[i] <= 'F')
  {
    if k == 0 then [] else Hex(n / 16, k - 1) + [HexChar(n % 16)]
  }

  /** The number a string of hex digits denotes. */
  function HexValue(s: string): nat
    requires AllHex(s)
  {
    if s == [] then 0 else 16 * HexValue(s[..|s| - 1]) + DigitValue(s[|s| - 1])
  }

  /** `str(uuid.UUID(int=u))`: 32 lower-case hex digits grouped 8-4-4-4-12 by dashes. */
  function Text(u: nat): (t: string)
    ensures |t| == 36
    ensures forall i :: 0 <= i < |t| ==> (t[i] == '-' <==> i in {8, 13, 18, 23})
    ensures forall i :: 0 <= i < |t| && t[i] != '-' ==> IsHexDigit(t[i]) && !('A' <= t[i] <= 'F')
  {
    var h := Hex(u, 32);
    h[..8] + "-" + h[8..12] + "-" + h[12..16] + "-" + h[16..20] + "-" + h[20..]
  }

  function Undash(s: string): (r: string)
    ensures |r| <= |s|
  {
    if s == [] then [] else (if s[0] == '-' then [] else [s[0]]) + Undash(s[1..])
  }

  /**
   * What `uuid.UUID(hex=s)` accepts once the dashes are removed: exactly 32 hex digits of
   * either case.  `None` is the ValueError Django turns into a ValidationError.
   */
  function Parse(s: string): (r: Option<nat>)
    ensures r.Some? ==> IsUuid(r.value)
  {
    var h := Undash(s);
    if |h| == 32 && AllHex(h) then
      HexValueBound(h);
      Some(HexValue(h))
    else None
  }

  lemma {:induction false} HexValueBound(s: string)
    requires AllHex(s)
    ensures HexValue(s) < Pow16(|s|)
  {
    if s != [] {
      var p := s[..|s| - 1];
      assert AllHex(p);
      HexValueBound(p);
    }
  }

  lemma DigitValueHexChar(d: nat)
    requires d < 16
    ensures DigitValue(HexChar(d)) == d
  {
  }

  /** Reading back `k` digits written for a value below 16^k gives that value. */
  lemma {:induction false} HexRoundTrip(n: nat, k: nat)
    requires n < Pow16(k)
    ensures HexValue(Hex(n, k)) == n
  {
    if k > 0 {
      var h := Hex(n / 16, k - 1);
      var s := Hex(n, k);
      assert s == h + [HexChar(n % 16)];
      assert s[..|s| - 1] == h;
      assert n / 16 < Pow16(k - 1);
      HexRoundTrip(n / 16, k - 1);
      DigitValueHexChar(n % 16);
    }
  }

  lemma {:induction false} UndashConcat(a: string, b: string)
    ensures Undash(a + b) == Undash(a) + Undash(b)
  {
    if a != [] {
      assert (a + b)[1..] == a[1..] + b;
      UndashConcat(a[1..], b);
    } else {
      assert a + b == b;
    }
  }

  lemma {:induction false} UndashNoDash(s: string)
    requires forall i :: 0 <= i < |s| ==> s[i] != '-'
    ensures Undash(s) == s
  {
    if s != [] {
      UndashNoDash(s[1..]);
    }
  }

  lemma UndashDash(a: string, b: string)
    requires forall i :: 0 <= i < |b| ==> b[i] != '-'
    ensures Undash(a + "-" + b) == Undash(a) + b
  {
    var ad := a + "-";
    UndashConcat(ad, b);
    UndashConcat(a, "-");
    UndashNoDash(b);
    var dash: string := "-";
    assert dash[1..] == [];
    assert Undash(dash) == [];
    assert Undash(ad) == Undash(a);
  }

  lemma UndashText(u: nat)
    ensures Undash(Text(u)) == Hex(u, 32)
  {
    var h := Hex(u, 32);
    var a, b, c, d, e := h[..8], h[8..12], h[12..16], h[16..20], h[20..];
    UndashNoDash(a);
    UndashDash(a, b);
    UndashDash(a + "-" + b, c);
    UndashDash(a + "-" + b + "-" + c, d);
    UndashDash(a + "-" + b + "-" + c + "-" + d, e);
    assert a + b + c + d + e == h;
  }

  /** The text written for a UUID parses back to that UUID. */
  lemma ParseText(u: nat)
    requires IsUuid(u)
    ensures Parse(Text(u)) == Some(u)
  {
    UndashText(u);
    HexRoundTrip(u, 32);
  }

  /** Distinct UUIDs have distinct texts. */
  lemma TextInjective(u: nat, v: nat)
    requires IsUuid(u) && IsUuid(v) && Text(u) == Text(v)
    ensures u == v
  {
    ParseText(u);
    ParseText(v);
  }
}
