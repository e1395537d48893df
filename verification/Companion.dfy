/**
 * The companion origin parser: `http://host[:port]` in one spelling only, for hosts on private networks. The URL
 * splitting of the Python library is written out, because the round trip depends on it.
 */
module Companion {
  import opened Prelude
  import opened Text

  // ---- Character classes ----------------------------------------------------------------------

  predicate IsLetter(c: char) {
    'a' <= c <= 'z' || 'A' <= c <= 'Z'
  }

  predicate IsLabelChar(c: char) {
    'a' <= c <= 'z' || IsDigit(c)
  }

  predicate IsSchemeChar(c: char) {
    IsLetter(c) || IsDigit(c) || c == '+' || c == '-' || c == '.'
  }

  /** What the parser refuses anywhere in the value. */
  predicate Forbidden(c: char) {
    c as int <= 32 || c as int >= 127 || c == '\\' || c == '%'
  }

  // ---- Hosts ----------------------------------------------------------------------------------

  /** One part of a dotted quad as `ipaddress` reads it: at most three digits, no leading zero, below 256. */
  function Octet(s: string): Option<bv32> {
    if AllDigits(s) && |s| <= 3 && (|s| > 1 ==> s[0] != '0') && Number(s) <= 255 then Some(Number(s) as bv32) else None
  }

  function Quad(a: bv32, b: bv32, c: bv32, d: bv32): bv32 {
    (a << 24) | (b << 16) | (c << 8) | d
  }

  function Ipv4(host: string): Option<bv32> {
    var parts := Split(host, '.');
    if |parts| != 4 then None
    else
      var a, b, c, d := Octet(parts[0]), Octet(parts[1]), Octet(parts[2]), Octet(parts[3]);
      if a.Some? && b.Some? && c.Some? && d.Some? then Some(Quad(a.value, b.value, c.value, d.value)) else None
  }

  /** The netmask of a prefix: that many leading ones. */
  function Mask(prefix: bv6): bv32
    requires prefix <= 32
  {
    !(0xFFFF_FFFF >> prefix)
  }

  predicate InNetwork(address: bv32, base: bv32, prefix: bv6)
    requires prefix <= 32
  {
    address & Mask(prefix) == base
  }

  predicate InCompanionNetworks(address: bv32) {
    || InNetwork(address, Quad(10, 0, 0, 0), 8)
    || InNetwork(address, Quad(100, 64, 0, 0), 10)
    || InNetwork(address, Quad(127, 0, 0, 0), 8)
    || InNetwork(address, Quad(169, 254, 0, 0), 16)
    || InNetwork(address, Quad(172, 16, 0, 0), 12)
    || InNetwork(address, Quad(192, 168, 0, 0), 16)
  }

  predicate InCompanionIntervals(address: bv32) {
    || Quad(10, 0, 0, 0) <= address <= Quad(10, 255, 255, 255)
    || Quad(100, 64, 0, 0) <= address <= Quad(100, 127, 255, 255)
    || Quad(127, 0, 0, 0) <= address <= Quad(127, 255, 255, 255)
    || Quad(169, 254, 0, 0) <= address <= Quad(169, 254, 255, 255)
    || Quad(172, 16, 0, 0) <= address <= Quad(172, 31, 255, 255)
    || Quad(192, 168, 0, 0) <= address <= Quad(192, 168, 255, 255)
  }

  /** The six networks are six intervals of 32-bit numbers; three of them are those of section 3 of RFC 1918. */
  lemma NetworksAreIntervals(address: bv32)
    ensures InCompanionNetworks(address) <==> InCompanionIntervals(address)
  {
    Ten(address);
    SharedSpace(address);
    Loopback(address);
    LinkLocal(address);
    OneSevenTwo(address);
    OneNineTwo(address);
    hide InNetwork, Quad;
  }

  lemma Ten(address: bv32)
    ensures InNetwork(address, Quad(10, 0, 0, 0), 8) <==> Quad(10, 0, 0, 0) <= address <= Quad(10, 255, 255, 255)
  {
  }

  lemma SharedSpace(address: bv32)
    ensures InNetwork(address, Quad(100, 64, 0, 0), 10) <==> Quad(100, 64, 0, 0) <= address <= Quad(100, 127, 255, 255)
  {
  }

  lemma Loopback(address: bv32)
    ensures InNetwork(address, Quad(127, 0, 0, 0), 8) <==> Quad(127, 0, 0, 0) <= address <= Quad(127, 255, 255, 255)
  {
  }

  lemma LinkLocal(address: bv32)
    ensures InNetwork(address, Quad(169, 254, 0, 0), 16) <==>
      Quad(169, 254, 0, 0) <= address <= Quad(169, 254, 255, 255)
  {
  }

  lemma OneSevenTwo(address: bv32)
    ensures InNetwork(address, Quad(172, 16, 0, 0), 12) <==> Quad(172, 16, 0, 0) <= address <= Quad(172, 31, 255, 255)
  {
  }

  lemma OneNineTwo(address: bv32)
    ensures InNetwork(address, Quad(192, 168, 0, 0), 16) <==>
      Quad(192, 168, 0, 0) <= address <= Quad(192, 168, 255, 255)
  {
  }

  /** `[a-z0-9](?:[a-z0-9-]{0,61}[a-z0-9])?`, whole. */
  predicate IsLabel(s: string) {
    && 1 <= |s| <= 63 && IsLabelChar(s[0]) && IsLabelChar(s[|s| - 1])
    && forall i :: 0 <= i < |s| ==> IsLabelChar(s[i]) || s[i] == '-'
  }

  predicate IsHex(s: string) {
    "0x" <= s && forall i :: 2 <= i < |s| ==> IsDigit(s[i]) || 'a' <= s[i] <= 'f'
  }

  const PUNYCODE := "xn--"

  predicate AllowedLabel(s: string) {
    IsLabel(s) && !(PUNYCODE <= s)
  }

  /** The pieces between the dots are allowed labels, and a lone one is not a number. */
  predicate NamedByLabels(host: string) {
    var labels := Split(host, '.');
    && (forall i :: 0 <= i < |labels| ==> AllowedLabel(labels[i]))
    && (if |labels| == 1 then !AllDigits(labels[0]) && !IsHex(labels[0]) else labels[|labels| - 1] == "local")
  }

  /** `_valid_companion_client_host`. Text that reads as an IPv6 address has colons, so fails either way. */
  predicate ValidHost(host: string) {
    && host != "" && |host| <= 253 && (forall i :: 0 <= i < |host| ==> host[i] as int < 128 && host[i] != '%')
    && var address := Ipv4(host);
       if address.Some? then InCompanionNetworks(address.value)
       else NamedByLabels(host)
  }

  // ---- What hosts are accepted ----------------------------------------------------------------

  function Dotted(labels: seq<string>): string
    requires labels != []
  {
    if |labels| == 1 then labels[0] else labels[0] + ['.'] + Dotted(labels[1..])
  }

  lemma {:induction false} SplitUndoesDotted(labels: seq<string>)
    requires labels != [] && forall i :: 0 <= i < |labels| ==> '.' !in labels[i]
    ensures Split(Dotted(labels), '.') == labels
  {
    if |labels| == 1 {
      SplitWithoutSeparator(labels[0], '.');
    } else {
      SplitUndoesDotted(labels[1..]);
      SplitAfterPiece(labels[0], '.', Dotted(labels[1..]));
    }
  }

  lemma {:induction false} DottedUndoesSplit(s: string)
    ensures Dotted(Split(s, '.')) == s
    ensures forall i :: 0 <= i < |Split(s, '.')| ==> '.' !in Split(s, '.')[i]
  {
    if s != "" {
      DottedUndoesSplit(s[1..]);
      var rest := Split(s[1..], '.');
      assert s == [s[0]] + s[1..];
      if s[0] == '.' {
        assert ([""] + rest)[1..] == rest;
      } else {
        assert ([[s[0]] + rest[0]] + rest[1..])[1..] == rest[1..];
      }
    }
  }

  ghost predicate QuadText(host: string, a: string, b: string, c: string, d: string) {
    && host == Dotted([a, b, c, d])
    && Octet(a).Some? && Octet(b).Some? && Octet(c).Some? && Octet(d).Some?
    && InCompanionIntervals(Quad(Octet(a).value, Octet(b).value, Octet(c).value, Octet(d).value))
  }

  /** Four octets in their only spelling whose number lies in one of the intervals. */
  ghost predicate PrivateQuad(host: string) {
    exists a: string, b: string, c: string, d: string :: QuadText(host, a, b, c, d)
  }

  ghost predicate SingleName(host: string) {
    AllowedLabel(host) && !AllDigits(host) && !IsHex(host)
  }

  ghost predicate LocalName(host: string) {
    exists labels: seq<string> :: |labels| >= 1 && host == Dotted(labels + ["local"])
      && forall i :: 0 <= i < |labels| ==> AllowedLabel(labels[i])
  }

  predicate IsHostChar(c: char) {
    IsLabelChar(c) || c == '-' || c == '.'
  }

  ghost predicate HostText(s: string) {
    forall i :: 0 <= i < |s| ==> IsHostChar(s[i])
  }

  lemma {:induction false} DottedIsHostText(labels: seq<string>)
    requires labels != [] && forall i :: 0 <= i < |labels| ==> HostText(labels[i])
    ensures HostText(Dotted(labels)) && |Dotted(labels)| >= |labels[0]|
  {
    if |labels| > 1 {
      DottedIsHostText(labels[1..]);
      var head, tail := labels[0] + ['.'], Dotted(labels[1..]);
      forall i | 0 <= i < |head + tail| ensures IsHostChar((head + tail)[i]) {
        if i < |labels[0]| { assert IsHostChar(labels[0][i]); }
        if i >= |head| { assert IsHostChar(tail[i - |head|]); }
      }
    }
  }

  lemma OctetsAreHostText(s: string)
    requires Octet(s).Some?
    ensures HostText(s) && s != "" && '.' !in s
  {
  }

  lemma QuadTextIsRead(host: string, a: string, b: string, c: string, d: string)
    requires QuadText(host, a, b, c, d)
    ensures host != "" && HostText(host) && Ipv4(host).Some? && InCompanionNetworks(Ipv4(host).value)
  {
    OctetsAreHostText(a); OctetsAreHostText(b); OctetsAreHostText(c); OctetsAreHostText(d);
    var address := Quad(Octet(a).value, Octet(b).value, Octet(c).value, Octet(d).value);
    NetworksAreIntervals(address);
    hide Octet, Quad, InCompanionNetworks, InCompanionIntervals, Dotted, HostText;
    SplitUndoesDotted([a, b, c, d]);
    DottedIsHostText([a, b, c, d]);
  }

  lemma ReadQuadsAreQuadTexts(host: string)
    requires Ipv4(host).Some? && InCompanionNetworks(Ipv4(host).value)
    ensures PrivateQuad(host)
  {
    DottedUndoesSplit(host);
    var parts := Split(host, '.');
    NetworksAreIntervals(Ipv4(host).value);
    hide Octet, Quad, InCompanionNetworks, InCompanionIntervals, Dotted, Split;
    assert parts == [parts[0], parts[1], parts[2], parts[3]];
    assert QuadText(host, parts[0], parts[1], parts[2], parts[3]);
  }

  lemma PrivateQuadsAreWhatTheNetworksAccept(host: string)
    ensures PrivateQuad(host) <==> Ipv4(host).Some? && InCompanionNetworks(Ipv4(host).value)
    ensures PrivateQuad(host) ==> host != "" && HostText(host)
  {
    hide Ipv4, InCompanionNetworks, QuadText, HostText;
    if Ipv4(host).Some? && InCompanionNetworks(Ipv4(host).value) { ReadQuadsAreQuadTexts(host); }
    if a, b, c, d :| QuadText(host, a, b, c, d) { QuadTextIsRead(host, a, b, c, d); }
  }

  // ---- Private addresses by their octets ------------------------------------------------------

  /** The first two octets of the six networks; the other two are free. */
  predicate PrivateOctets(a: bv32, b: bv32) {
    || a == 10 || a == 127 || (a == 100 && 64 <= b <= 127)
    || (a == 169 && b == 254) || (a == 172 && 16 <= b <= 31) || (a == 192 && b == 168)
  }

  predicate AreOctets(a: bv32, b: bv32, c: bv32, d: bv32) {
    a <= 255 && b <= 255 && c <= 255 && d <= 255
  }

  function FirstOctet(address: bv32): bv32 {
    address >> 24
  }

  function SecondOctet(address: bv32): bv32 {
    (address >> 16) & 255
  }

  lemma QuadHasItsOctets(a: bv32, b: bv32, c: bv32, d: bv32)
    requires AreOctets(a, b, c, d)
    ensures FirstOctet(Quad(a, b, c, d)) == a && SecondOctet(Quad(a, b, c, d)) == b
  {
  }

  lemma WholeBlocks(x: bv32)
    ensures Quad(10, 0, 0, 0) <= x <= Quad(10, 255, 255, 255) <==> FirstOctet(x) == 10
    ensures Quad(127, 0, 0, 0) <= x <= Quad(127, 255, 255, 255) <==> FirstOctet(x) == 127
  {
  }

  lemma HalfBlocks(x: bv32)
    ensures Quad(169, 254, 0, 0) <= x <= Quad(169, 254, 255, 255) <==> FirstOctet(x) == 169 && SecondOctet(x) == 254
    ensures Quad(192, 168, 0, 0) <= x <= Quad(192, 168, 255, 255) <==> FirstOctet(x) == 192 && SecondOctet(x) == 168
  {
  }

  lemma PartBlocks(x: bv32)
    ensures Quad(100, 64, 0, 0) <= x <= Quad(100, 127, 255, 255) <==>
      FirstOctet(x) == 100 && 64 <= SecondOctet(x) <= 127
    ensures Quad(172, 16, 0, 0) <= x <= Quad(172, 31, 255, 255) <==>
      FirstOctet(x) == 172 && 16 <= SecondOctet(x) <= 31
  {
  }

  lemma IntervalsAreByOctets(x: bv32)
    ensures InCompanionIntervals(x) <==> PrivateOctets(FirstOctet(x), SecondOctet(x))
  {
    hide Quad, FirstOctet, SecondOctet;
    WholeBlocks(x);
    HalfBlocks(x);
    PartBlocks(x);
  }

  lemma IntervalsByOctets(a: bv32, b: bv32, c: bv32, d: bv32)
    requires AreOctets(a, b, c, d)
    ensures InCompanionIntervals(Quad(a, b, c, d)) <==> PrivateOctets(a, b)
  {
    hide *;
    QuadHasItsOctets(a, b, c, d);
    IntervalsAreByOctets(Quad(a, b, c, d));
  }

  lemma {:induction false} DecimalUndoesNumber(s: string)
    requires AllDigits(s) && (|s| > 1 ==> s[0] != '0')
    ensures Decimal(Number(s)) == s && (s[0] != '0' ==> Number(s) > 0)
  {
    var n := |s| - 1;
    var d := s[n] as int - '0' as int;
    assert IsDigit(s[n]) && 0 <= d < 10;
    if n > 0 {
      DecimalUndoesNumber(s[..n]);
      assert Number(s) / 10 == Number(s[..n]) && Number(s) % 10 == d;
      assert Digit(d) == s[n];
      assert s == s[..n] + [s[n]];
    } else {
      assert Number(s[..n]) == 0;
      assert s == [s[0]] && Digit(d) == s[0];
    }
  }

  /** An octet is a number up to 255 in its only decimal spelling. */
  lemma OctetsAreDecimals(s: string)
    ensures Octet(s).Some? <==> exists n: nat :: n <= 255 && s == Decimal(n)
  {
    if Octet(s).Some? { DecimalUndoesNumber(s); }
    if n: nat :| n <= 255 && s == Decimal(n) { DecimalIsAnOctet(n); }
  }

  lemma DecimalIsAnOctet(n: nat)
    requires n <= 255
    ensures Octet(Decimal(n)).Some?
  {
    NumberUndoesDecimal(n);
    DecimalHasThreeDigits(n);
    hide Decimal, Number;
  }

  lemma DecimalHasThreeDigits(n: nat)
    requires n <= 255
    ensures |Decimal(n)| <= 3 && (|Decimal(n)| > 1 ==> n > 0)
  {
    DecimalOneMore(n);
    DecimalOneMore(n / 10);
    DecimalOneMore(n / 10 / 10);
    hide Decimal;
  }

  lemma DecimalOneMore(n: nat)
    ensures |Decimal(n)| == if n < 10 then 1 else |Decimal(n / 10)| + 1
  {
  }

  lemma OctetsAreSmall(s: string)
    requires Octet(s).Some?
    ensures Octet(s).value <= 255
  {
  }

  ghost predicate PrivateAddress(host: string, a: string, b: string, c: string, d: string) {
    && host == Dotted([a, b, c, d])
    && Octet(a).Some? && Octet(b).Some? && Octet(c).Some? && Octet(d).Some?
    && PrivateOctets(Octet(a).value, Octet(b).value)
  }

  lemma QuadTextsByOctets(host: string, a: string, b: string, c: string, d: string)
    ensures QuadText(host, a, b, c, d) <==> PrivateAddress(host, a, b, c, d)
  {
    hide Octet, Quad, InCompanionIntervals, PrivateOctets, Dotted;
    if Octet(a).Some? && Octet(b).Some? && Octet(c).Some? && Octet(d).Some? {
      OctetsAreSmall(a); OctetsAreSmall(b); OctetsAreSmall(c); OctetsAreSmall(d);
      IntervalsByOctets(Octet(a).value, Octet(b).value, Octet(c).value, Octet(d).value);
    }
  }

  /** A host taken as an address is a dotted quad whose first two octets are those of a private network. */
  lemma AddressHostsArePrivate(host: string)
    ensures Ipv4(host).Some? && InCompanionNetworks(Ipv4(host).value) <==>
      exists a: string, b: string, c: string, d: string :: PrivateAddress(host, a, b, c, d)
  {
    PrivateQuadsAreWhatTheNetworksAccept(host);
    hide Ipv4, InCompanionNetworks, QuadText, PrivateAddress;
    if a: string, b: string, c: string, d: string :| QuadText(host, a, b, c, d) {
      QuadTextsByOctets(host, a, b, c, d);
    }
    if a: string, b: string, c: string, d: string :| PrivateAddress(host, a, b, c, d) {
      QuadTextsByOctets(host, a, b, c, d);
    }
  }

  // ---- Names ----------------------------------------------------------------------------------

  lemma LocalIsAllowed()
    ensures AllowedLabel("local")
  {
    assert PUNYCODE[0] == 'x' && "local"[0] == 'l';
  }

  lemma LocalNamesSplit(host: string, labels: seq<string>)
    requires |labels| >= 1 && host == Dotted(labels + ["local"])
    requires forall i :: 0 <= i < |labels| ==> AllowedLabel(labels[i])
    ensures Split(host, '.') == labels + ["local"] && NamedByLabels(host)
  {
    var all := labels + ["local"];
    LocalIsAllowed();
    forall i | 0 <= i < |all| ensures AllowedLabel(all[i]) && '.' !in all[i] {
    }
    SplitUndoesDotted(all);
  }

  lemma NamedHostsAreNotQuads(host: string)
    requires NamedByLabels(host)
    ensures host != "" && HostText(host) && Ipv4(host).None?
  {
    DottedUndoesSplit(host);
    DottedIsHostText(Split(host, '.'));
    assert !AllDigits("local") by { assert !IsDigit("local"[0]); }
    hide Dotted, Split, HostText;
  }

  lemma NamedHostsAreSingleOrLocal(host: string)
    requires NamedByLabels(host)
    ensures SingleName(host) || LocalName(host)
  {
    DottedUndoesSplit(host);
    var labels := Split(host, '.');
    hide Split, AllowedLabel, AllDigits, IsHex;
    if |labels| > 1 {
      var given := labels[..|labels| - 1];
      assert labels == given + ["local"];
    }
  }

  lemma NamesAreOfTwoKinds(host: string)
    ensures NamedByLabels(host) <==> SingleName(host) || LocalName(host)
  {
    if SingleName(host) { SplitWithoutSeparator(host, '.'); }
    if LocalName(host) {
      var labels: seq<string> :| |labels| >= 1 && host == Dotted(labels + ["local"])
        && forall i :: 0 <= i < |labels| ==> AllowedLabel(labels[i]);
      LocalNamesSplit(host, labels);
    }
    if NamedByLabels(host) { NamedHostsAreSingleOrLocal(host); }
    hide NamedByLabels, LocalName;
  }

  /**
   * A name can be taken for nothing else: small letters, digits, hyphens and dots, starting and ending with a
   * letter or digit; without a dot it is no decimal, hexadecimal or punycode one, nor too long for a label.
   */
  lemma NamesAreUnambiguous(host: string)
    requires ValidHost(host) && Ipv4(host).None?
    ensures forall i :: 0 <= i < |host| ==>
      'a' <= host[i] <= 'z' || '0' <= host[i] <= '9' || host[i] == '-' || host[i] == '.'
    ensures '.' !in host ==>
      && |host| <= 63 && host[0] != '-' && host[|host| - 1] != '-' && !("xn--" <= host)
      && (exists i :: 0 <= i < |host| && !('0' <= host[i] <= '9'))
      && (|host| >= 2 && host[0] == '0' && host[1] == 'x' ==>
            exists i :: 2 <= i < |host| && !('0' <= host[i] <= '9' || 'a' <= host[i] <= 'f'))
    ensures '.' in host ==> EndsWithLocal(host)
  {
    NamedHostsAreNotQuads(host);
    if '.' !in host {
      SplitWithoutSeparator(host, '.');
      assert "0x" <= host <==> |host| >= 2 && host[0] == '0' && host[1] == 'x';
    } else {
      DottedUndoesSplit(host);
      var labels := Split(host, '.');
      assert AllowedLabel(labels[0]) && '.' !in labels[0];
      assert |labels| > 1;
      assert labels == labels[..|labels| - 1] + ["local"];
      LocalNamesEnd(labels[..|labels| - 1]);
    }
    hide Split, Ipv4;
  }

  ghost predicate EndsWithLocal(host: string) {
    exists front: string :: front != "" && host == front + ".local"
  }

  lemma LocalNamesEnd(labels: seq<string>)
    requires |labels| > 0 && |labels[0]| > 0
    ensures EndsWithLocal(Dotted(labels + ["local"]))
  {
    hide Dotted;
    DottedOneMore(labels, "local");
    DottedIsLong(labels);
    DotLocal(Dotted(labels));
  }

  lemma DotLocal(front: string)
    requires |front| > 0
    ensures EndsWithLocal(front + ['.'] + "local")
  {
    assert front + ['.'] + "local" == front + ".local";
  }

  lemma {:induction false} DottedIsLong(labels: seq<string>)
    requires labels != []
    ensures |Dotted(labels)| >= |labels[0]|
  {
  }

  lemma {:induction false} DottedOneMore(labels: seq<string>, last: string)
    requires labels != []
    ensures Dotted(labels + [last]) == Dotted(labels) + ['.'] + last
  {
    var all := labels + [last];
    if |labels| == 1 {
      assert all[1..] == [last];
    } else {
      assert all[1..] == labels[1..] + [last];
      DottedOneMore(labels[1..], last);
      var head, rest := labels[0] + ['.'], Dotted(labels[1..]);
      assert head + (rest + ['.'] + last) == (head + rest) + ['.'] + last;
    }
  }

  /** Accepted hosts are exactly those of three kinds, of at most 253 characters. */
  lemma ValidHostsAreOfThreeKinds(host: string)
    ensures ValidHost(host) <==> |host| <= 253 && (PrivateQuad(host) || SingleName(host) || LocalName(host))
    ensures ValidHost(host) ==> host != "" && HostText(host)
  {
    PrivateQuadsAreWhatTheNetworksAccept(host);
    NamesAreOfTwoKinds(host);
    if NamedByLabels(host) { NamedHostsAreNotQuads(host); }
    if HostText(host) {
      forall i | 0 <= i < |host| ensures host[i] as int < 128 && host[i] != '%' { assert IsHostChar(host[i]); }
    }
    hide PrivateQuad, SingleName, LocalName, NamedByLabels, HostText, Ipv4, InCompanionNetworks;
  }

  // ---- URLs -----------------------------------------------------------------------------------

  /** The index of the first character of `s` that `stop` holds of, or the length. */
  function FirstOf(s: string, stop: char -> bool): (n: nat)
    ensures n <= |s| && (n < |s| ==> stop(s[n])) && forall i :: 0 <= i < n ==> !stop(s[i])
  {
    if s == "" || stop(s[0]) then 0 else 1 + FirstOf(s[1..], stop)
  }

  function Find(s: string, c: char): (n: nat)
    ensures n <= |s| && (n < |s| ==> s[n] == c) && forall i :: 0 <= i < n ==> s[i] != c
  {
    FirstOf(s, x => x == c)
  }

  /** What precedes the first `c`, and what follows it: empty when there is none. */
  function Partition(s: string, c: char): (string, string) {
    var n := Find(s, c);
    if n < |s| then (s[..n], s[n + 1..]) else (s, "")
  }

  function AfterLast(s: string, c: char): string
    decreases |s|
  {
    if c in s then AfterLast(Partition(s, c).1, c) else s
  }

  datatype Url = Url(scheme: string, netloc: string, path: string, query: string, fragment: string)

  function SplitScheme(s: string): (string, string) {
    var n := Find(s, ':');
    if 0 < n < |s| && IsLetter(s[0]) && (forall i :: 0 <= i < n ==> IsSchemeChar(s[i])) then (Lower(s[..n]), s[n + 1..])
    else ("", s)
  }

  /** The delimiters that end a location. */
  predicate EndsLocation(c: char) {
    c == '/' || c == '?' || c == '#'
  }

  /** `urlsplit` on text without white space or control characters; None where it raises. */
  function UrlSplit(s: string): Option<Url> {
    var (scheme, rest) := SplitScheme(s);
    var (netloc, tail) :=
      if "//" <= rest then
        var n := FirstOf(rest[2..], EndsLocation); (rest[2..][..n], rest[2..][n..])
      else ("", rest);
    if ('[' in netloc) != (']' in netloc) then None
    else
      var (unfragmented, fragment) := Partition(tail, '#');
      var (path, query) := Partition(unfragmented, '?');
      Some(Url(scheme, netloc, path, query, fragment))
  }

  /** The host and port texts of a network location; an empty port is none. */
  function HostInfo(netloc: string): (string, string) {
    var info := AfterLast(netloc, '@');
    if '[' in info then
      var (host, rest) := Partition(Partition(info, '[').1, ']');
      (host, Partition(rest, ':').1)
    else Partition(info, ':')
  }

  /** `parsed.port`: None where it raises, Some(None) where there is no port. */
  function Port(text: string): Option<Option<nat>> {
    if text == "" then Some(None)
    else if AllDigits(text) && Number(text) <= 65535 then Some(Some(Number(text)))
    else None
  }

  datatype Origin = Origin(host: string, port: nat)

  const SCHEME := "http://"

  function Print(host: string, port: Option<nat>): string {
    SCHEME + (if port.Some? then host + ":" + Decimal(port.value) else host)
  }

  predicate HasForbidden(value: string) {
    exists i :: 0 <= i < |value| && Forbidden(value[i])
  }

  /** `parse_companion_base_url`; None stands for its ValueError. */
  function Parse(value: string): Option<Origin> {
    if value == "" || HasForbidden(value) then None
    else
      var url := UrlSplit(value);
      if url.None? then None else Check(value, url.value)
  }

  function Check(value: string, url: Url): Option<Origin> {
    var (hostText, portText) := HostInfo(url.netloc);
    var port := Port(portText);
    var host := Lower(hostText);
    if port.None? then None
    else if Lower(url.scheme) != "http" || url.netloc == "" || host == "" then None
    else if '@' in url.netloc then None
    else if url.path != "" || url.query != "" || url.fragment != "" then None
    else if port.value.Some? && !(1 <= port.value.value <= 65535) then None
    else if !ValidHost(host) then None
    else if value != Print(host, port.value) then None
    else Some(Origin(host, port.value.GetOr(80)))
  }

  // ---- Parsing and printing undo each other ---------------------------------------------------

  lemma PartitionAt(a: string, c: char, b: string)
    requires c !in a
    ensures Partition(a + [c] + b, c) == (a, b)
  {
    var s := a + [c] + b;
    var n := Find(s, c);
    assert s[|a|] == c && s[n] == c;
    assert forall i :: 0 <= i < |a| ==> s[i] == a[i];
    assert s[..|a|] == a && s[|a| + 1..] == b;
  }

  lemma PartitionWithout(a: string, c: char)
    requires c !in a
    ensures Partition(a, c) == (a, "")
  {
  }

  /** A port as it may stand in a location: absent, or digits. */
  ghost predicate PortText(s: string) {
    s == "" || AllDigits(s)
  }

  function Location(host: string, port: string): string {
    if port == "" then host else host + [':'] + port
  }

  lemma LocationChars(host: string, port: string)
    requires HostText(host) && PortText(port)
    ensures var s := Location(host, port); forall i :: 0 <= i < |s| ==> IsHostChar(s[i]) || s[i] == ':'
  {
  }

  lemma NothingEndsALocation(host: string, port: string)
    requires HostText(host) && PortText(port)
    ensures var netloc := Location(host, port);
      FirstOf(netloc, EndsLocation) == |netloc| && '[' !in netloc && ']' !in netloc && '@' !in netloc
  {
    LocationChars(host, port);
  }

  lemma LocationIsTaken(host: string, port: string)
    requires HostText(host) && PortText(port)
    ensures var netloc := Location(host, port); UrlSplit(SCHEME + netloc) == Some(Url("http", netloc, "", "", ""))
  {
    var netloc := Location(host, port);
    SchemeIsTaken(netloc);
    NothingEndsALocation(host, port);
    PartitionWithout("", '#');
    PartitionWithout("", '?');
    assert ("//" + netloc)[2..] == netloc && "//" <= "//" + netloc;
    assert netloc[..|netloc|] == netloc && netloc[|netloc|..] == "";
    hide SplitScheme, Partition, Location, FirstOf, HostText, PortText;
  }

  lemma SchemeIsTaken(netloc: string)
    ensures SplitScheme(SCHEME + netloc) == ("http", "//" + netloc)
  {
    var s := SCHEME + netloc;
    assert s == "http" + [':'] + ("//" + netloc);
    assert ':' !in "http";
    PartitionAt("http", ':', "//" + netloc);
    assert s[..4] == "http" && Lower("http") == "http";
  }

  lemma HostInfoOfLocation(host: string, port: string)
    requires HostText(host) && PortText(port)
    ensures HostInfo(Location(host, port)) == (host, port) && '@' !in Location(host, port)
  {
    LocationChars(host, port);
    var netloc := Location(host, port);
    assert '@' !in netloc && '[' !in netloc && ':' !in host;
    if port == "" { PartitionWithout(netloc, ':'); } else { PartitionAt(host, ':', port); }
  }

  lemma HostTextIsLower(host: string)
    requires HostText(host)
    ensures Lower(host) == host
  {
  }

  lemma PrintedHasNothingForbidden(host: string, port: string)
    requires HostText(host) && PortText(port)
    ensures !HasForbidden(SCHEME + Location(host, port))
  {
  }

  function PortDigits(port: Option<nat>): string {
    if port.Some? then Decimal(port.value) else ""
  }

  lemma PortOfDigits(port: Option<nat>)
    requires port.Some? ==> 1 <= port.value <= 65535
    ensures PortText(PortDigits(port)) && Port(PortDigits(port)) == Some(port)
    ensures port.None? <==> PortDigits(port) == ""
  {
    if port.Some? { NumberUndoesDecimal(port.value); }
  }

  lemma PrintIsLocation(host: string, port: Option<nat>)
    requires host != "" && (port.None? <==> PortDigits(port) == "")
    ensures Print(host, port) == SCHEME + Location(host, PortDigits(port)) != ""
    ensures Location(host, PortDigits(port)) != ""
  {
  }

  lemma SchemeIsLower()
    ensures Lower("http") == "http"
  {
    HostTextIsLower("http");
  }

  lemma CheckTakes(value: string, url: Url, host: string, port: Option<nat>)
    requires HostInfo(url.netloc) == (host, PortDigits(port)) && Port(PortDigits(port)) == Some(port)
    requires Lower(url.scheme) == "http" && url.netloc != "" && '@' !in url.netloc
    requires url.path == "" == url.query == url.fragment
    requires Lower(host) == host != "" && ValidHost(host) && (port.Some? ==> 1 <= port.value <= 65535)
    requires value == Print(host, port)
    ensures Check(value, url) == Some(Origin(host, port.GetOr(80)))
  {
  }

  /** Every valid host and port parses back from its printed form; without a port it means 80. */
  lemma ParseUndoesPrint(host: string, port: Option<nat>)
    requires ValidHost(host) && (port.Some? ==> 1 <= port.value <= 65535)
    ensures Parse(Print(host, port)) == Some(Origin(host, port.GetOr(80)))
  {
    hide *;
    var digits := PortDigits(port);
    ValidHostsAreOfThreeKinds(host);
    SchemeIsLower();
    PortOfDigits(port);
    PrintIsLocation(host, port);
    LocationIsTaken(host, digits);
    HostInfoOfLocation(host, digits);
    HostTextIsLower(host);
    PrintedHasNothingForbidden(host, digits);
    CheckTakes(Print(host, port), Url("http", Location(host, digits), "", "", ""), host, port);
    ParseIsCheck(Print(host, port));
  }

  lemma ParseIsCheck(value: string)
    requires value != "" && !HasForbidden(value) && UrlSplit(value).Some?
    ensures Parse(value) == Check(value, UrlSplit(value).value)
  {
  }

  lemma AcceptedIsPrinted(value: string)
    requires Parse(value).Some?
    ensures var o := Parse(value).value;
      && ValidHost(o.host) && 1 <= o.port <= 65535
      && (value == Print(o.host, Some(o.port)) || (o.port == 80 && value == Print(o.host, None)))
  {
    hide ValidHost, UrlSplit, HostInfo, Lower, Port, HasForbidden, Print;
  }

  /**
   * The accepted strings are exactly the printed forms of valid hosts with a port in 1..65535, or with none for 80;
   * so of all the spellings of an origin only these are accepted.
   */
  lemma AcceptedExactlyWhenPrinted(value: string, host: string, port: nat)
    ensures Parse(value) == Some(Origin(host, port)) <==>
      && ValidHost(host) && 1 <= port <= 65535
      && (value == Print(host, Some(port)) || (port == 80 && value == Print(host, None)))
  {
    hide ValidHost, Parse, Print;
    if Parse(value).Some? { AcceptedIsPrinted(value); }
    if ValidHost(host) && 1 <= port <= 65535 {
      ParseUndoesPrint(host, Some(port));
      ParseUndoesPrint(host, None);
    }
  }
}