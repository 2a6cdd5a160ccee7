/** The string keys of the service's maps: decimal numbers joined by '-'.  The close and detach paths find the
    entries of one device by a string-prefix scan; these lemmas say that the scan is a filter on numbers. */
module DeviceKeys {

  function Digit(n: nat): char
    requires n < 10
  {
    '0' + n as char
  }

  /** `std::to_string` of an unsigned number. */
  function Decimal(n: nat): (s: string)
    ensures s != [] && forall c :: c in s ==> '0' <= c <= '9'
  {
    if n < 10 then [Digit(n)] else Decimal(n / 10) + [Digit(n % 10)]
  }

  function DeviceKey(bus: nat, addr: nat): string {
    Decimal(bus) + "-" + Decimal(addr)
  }

  /** What the scans of the claim map look for at the front of a key. */
  function DevicePrefix(bus: nat, addr: nat): string {
    Decimal(bus) + "-" + Decimal(addr) + "-"
  }

  function ClaimKey(bus: nat, addr: nat, id: nat): string {
    Decimal(bus) + "-" + Decimal(addr) + "-" + Decimal(id)
  }

  lemma {:induction false} DecimalInjective(m: nat, n: nat)
    requires Decimal(m) == Decimal(n)
    ensures m == n
  {
    var s, t := Decimal(m), Decimal(n);
    assert s[|s| - 1] == t[|t| - 1];
    assert m % 10 == n % 10;
    if m >= 10 && n >= 10 {
      assert Decimal(m / 10) == s[..|s| - 1] == t[..|t| - 1] == Decimal(n / 10);
      DecimalInjective(m / 10, n / 10);
    }
  }

  /** The first '-' ends the first number, so one joined text can only start another by agreeing on it. */
  lemma FirstFieldAgrees(m: nat, rest: string, n: nat, rest': string)
    requires Decimal(m) + "-" + rest <= Decimal(n) + "-" + rest'
    ensures m == n && rest <= rest'
  {
    var s, t := Decimal(m), Decimal(n);
    var a, b := s + "-" + rest, t + "-" + rest';
    assert forall k :: 0 <= k < |a| ==> a[k] == b[k];
    assert forall c :: c in s || c in t ==> c != '-';
    assert forall k :: 0 <= k < |s| ==> a[k] == s[k] && s[k] in s;
    assert forall k :: 0 <= k < |t| ==> b[k] == t[k] && t[k] in t;
    assert a[|s|] == '-' && b[|t|] == '-';
    assert |s| == |t|;
    assert s == a[..|s|] == b[..|s|] == t;
    DecimalInjective(m, n);
    assert rest == a[|s| + 1..] && rest' == b[|s| + 1..];
  }

  /** For all numbers, not only bytes: the prefix scan of one device finds exactly that device's keys. */
  lemma PrefixScanExact(bus: nat, addr: nat, bus': nat, addr': nat, id': nat)
    ensures DevicePrefix(bus, addr) <= ClaimKey(bus', addr', id') <==> bus == bus' && addr == addr'
  {
    var p, k := DevicePrefix(bus, addr), ClaimKey(bus', addr', id');
    if p <= k {
      var rest, rest' := Decimal(addr) + "-" + "", Decimal(addr') + "-" + Decimal(id');
      assert p == Decimal(bus) + "-" + rest && k == Decimal(bus') + "-" + rest';
      FirstFieldAgrees(bus, rest, bus', rest');
      FirstFieldAgrees(addr, "", addr', Decimal(id'));
    }
    if bus == bus' && addr == addr' {
      assert k == p + Decimal(id');
    }
  }

  lemma ClaimKeyInjective(bus: nat, addr: nat, id: nat, bus': nat, addr': nat, id': nat)
    requires ClaimKey(bus, addr, id) == ClaimKey(bus', addr', id')
    ensures bus == bus' && addr == addr' && id == id'
  {
    var k := ClaimKey(bus, addr, id);
    assert k == DevicePrefix(bus, addr) + Decimal(id);
    PrefixScanExact(bus, addr, bus', addr', id');
    var p := DevicePrefix(bus, addr);
    assert Decimal(id) == k[|p|..] == Decimal(id');
    DecimalInjective(id, id');
  }

  lemma DeviceKeyInjective(bus: nat, addr: nat, bus': nat, addr': nat)
    requires DeviceKey(bus, addr) == DeviceKey(bus', addr')
    ensures bus == bus' && addr == addr'
  {
    FirstFieldAgrees(bus, Decimal(addr), bus', Decimal(addr'));
    var k, p := DeviceKey(bus, addr), Decimal(bus) + "-";
    assert Decimal(addr) == k[|p|..] == Decimal(addr');
    DecimalInjective(addr, addr');
  }
}
