/** The key under which the server files a peer's write queue: the peer's
    host name, a colon, and its port in decimal, as Java's string
    concatenation renders an int. */
module AddressKeys {
  import opened Outcomes

  predicate IsDigit(c: char) {
    '0' <= c <= '9'
  }

  function DigitValue(c: char): (d: nat)
    requires IsDigit(c)
    ensures d < 10
  {
    (c as int) - ('0' as int)
  }

  function DigitChar(d: nat): (c: char)
    requires d < 10
    ensures IsDigit(c) && DigitValue(c) == d
  {
    (('0' as int) + d) as char
  }

  /** The decimal digits of n, most significant first, without leading zeros. */
  function NatString(n: nat): (s: string)
    ensures |s| > 0 && forall i :: 0 <= i < |s| ==> IsDigit(s[i])
    ensures |s| == 1 || s[0] != '0'
    decreases n
  {
    if n < 10 then [DigitChar(n)] else NatString(n / 10) + [DigitChar(n % 10)]
  }

  /** Integer.toString: a minus sign before the digits of a negative value. */
  function IntString(i: int): (s: string)
    ensures |s| > 0 && ':' !in s
    ensures i >= 0 <==> IsDigit(s[0])
  {
    if i < 0 then "-" + NatString(-i) else NatString(i)
  }

  /** The value of a non-empty string of decimal digits; None for anything else. */
  function ParseNat(s: string): (r: Option<nat>)
    decreases |s|
  {
    if |s| == 0 || !IsDigit(s[|s| - 1]) then None
    else if |s| == 1 then Some(DigitValue(s[0]))
    else match ParseNat(s[..|s| - 1])
      case None => None
      case Some(v) => Some(10 * v + DigitValue(s[|s| - 1]))
  }

  /** An optional minus sign followed by decimal digits. */
  function ParseInt(s: string): Option<int> {
    if |s| > 0 && s[0] == '-' then
      match ParseNat(s[1..])
        case None => None
        case Some(v) => Some(-(v as int))
    else
      match ParseNat(s)
        case None => None
        case Some(v) => Some(v)
  }

  lemma {:induction false} ParseNatString(n: nat)
    ensures ParseNat(NatString(n)) == Some(n)
    decreases n
  {
    if n >= 10 {
      var s := NatString(n);
      assert s[..|s| - 1] == NatString(n / 10);
      ParseNatString(n / 10);
    }
  }

  /** Reading back the decimal rendering of a port gives the port. */
  lemma ParseIntString(i: int)
    ensures ParseInt(IntString(i)) == Some(i)
  {
    var s := IntString(i);
    if i < 0 {
      assert s[0] == '-' && s[1..] == NatString(-i);
      ParseNatString(-i);
    } else {
      assert s == NatString(i) && s[0] != '-';
      ParseNatString(i);
    }
  }

  /** getAddressKey: host name, ':', port. */
  function AddressKey(hostName: string, port: int): (key: string)
    ensures |key| > |hostName| && key[..|hostName|] == hostName && key[|hostName|] == ':'
    ensures key[|hostName| + 1..] == IntString(port)
  {
    hostName + ":" + IntString(port)
  }

  /** The index of the last occurrence of c in s. */
  function LastIndexOf(s: string, c: char): (r: Option<nat>)
    ensures r.Some? ==> r.value < |s| && s[r.value] == c && c !in s[r.value + 1..]
    ensures r.None? ==> c !in s
    decreases |s|
  {
    if |s| == 0 then None
    else if s[|s| - 1] == c then Some(|s| - 1)
    else
      var r := LastIndexOf(s[..|s| - 1], c);
      assert s == s[..|s| - 1] + [s[|s| - 1]];
      if r.Some? then
        assert s[r.value + 1..] == s[..|s| - 1][r.value + 1..] + [s[|s| - 1]];
        r
      else r
  }

  /** Splits a key at its last colon: host names may contain colons, the
      decimal port never does. */
  function ParseAddressKey(key: string): Option<(string, int)> {
    match LastIndexOf(key, ':')
      case None => None
      case Some(k) =>
        match ParseInt(key[k + 1..])
          case None => None
          case Some(port) => Some((key[..k], port))
  }

  lemma {:induction false} LastIndexOfAfter(s: string, c: char, t: string)
    requires c !in t
    ensures LastIndexOf(s + [c] + t, c) == Some(|s|)
    decreases |t|
  {
    if |t| > 0 {
      var u := s + [c] + t;
      assert u[..|u| - 1] == s + [c] + t[..|t| - 1];
      assert u[|u| - 1] == t[|t| - 1];
      LastIndexOfAfter(s, c, t[..|t| - 1]);
    }
  }

  /** The key determines the host name and the port it was built from. */
  lemma AddressKeyRoundTrip(hostName: string, port: int)
    ensures ParseAddressKey(AddressKey(hostName, port)) == Some((hostName, port))
  {
    var key := AddressKey(hostName, port);
    LastIndexOfAfter(hostName, ':', IntString(port));
    assert key == hostName + [':'] + IntString(port);
    ParseIntString(port);
  }

  /** Two peers share a write queue exactly when host name and port agree. */
  lemma AddressKeyInjective(h1: string, p1: int, h2: string, p2: int)
    ensures AddressKey(h1, p1) == AddressKey(h2, p2) <==> h1 == h2 && p1 == p2
  {
    AddressKeyRoundTrip(h1, p1);
    AddressKeyRoundTrip(h2, p2);
  }
}
