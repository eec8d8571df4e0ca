/** Canonicalizing a host that may be an IP address. */
module IpCanon {
  import opened Wrappers
  import opened UrlChars
  import opened Ipv4Spec
  import Ipv4Grammar
  import Ipv4Reader
  import opened Ipv4Printer
  import Ipv6Grammar
  import Ipv6Scan
  import opened Ipv6Reader
  import opened Ipv6Printer
  import CanonOutput

  /** The verdict on a host: its family and, for an address, its bytes and canonical text. */
  datatype Canonical = Canonical(family: Family, bytes: seq<Byte>, text: string) {
    predicate IsAddress() { family == IPv4 || family == IPv6 }
  }

  /** Only an IPv6 literal may hold these. */
  predicate HasIPv6Punctuation(s: string) {
    exists i :: 0 <= i < |s| && (s[i] == '[' || s[i] == ']' || s[i] == ':')
  }

  function Canonicalize(s: string): Canonical {
    if Verdict(s) == IPv4 then
      var b := AddressBytes(Values(Parts(s)));
      Canonical(IPv4, b, IPv4Text(b))
    else if Verdict(s) == Broken then Canonical(Broken, [], "")
    else
      match ParseBracketed(s)
      case Some(b) => Canonical(IPv6, b, "[" + IPv6Text(b) + "]")
      case None => Canonical(if HasIPv6Punctuation(s) then Broken else Neutral, [], "")
  }

  // ---- laws ---------------------------------------------------------------------------

  lemma BracketedIsNeutralForIPv4(t: string)
    ensures Verdict("[" + t + "]") == Neutral
  {
    var s := "[" + t + "]";
    assert s[0] == '[' && !IsIPv4Char(s[0]);
  }

  lemma IPv4TextIsCanonical(b: seq<Byte>)
    requires |b| == 4
    ensures Canonicalize(IPv4Text(b)) == Canonical(IPv4, b, IPv4Text(b))
  {
    IPv4RoundTrip(b);
  }

  lemma IPv6TextIsCanonical(b: seq<Byte>)
    requires |b| == 16
    ensures Canonicalize("[" + IPv6Text(b) + "]") == Canonical(IPv6, b, "[" + IPv6Text(b) + "]")
  {
    hide Verdict, IPv6Text, Ipv6Scan.Parse;
    var s := "[" + IPv6Text(b) + "]";
    BracketedIsNeutralForIPv4(IPv6Text(b));
    IPv6RoundTrip(b);
    assert s[1..|s| - 1] == IPv6Text(b);
  }

  /** Canonicalizing the canonical text of any address gives the same text, family and bytes. */
  lemma CanonicalizeIsIdempotent(s: string)
    requires Canonicalize(s).IsAddress()
    ensures Canonicalize(Canonicalize(s).text) == Canonicalize(s)
  {
    hide Verdict, ParseBracketed, IPv4Text, IPv6Text, AddressBytes;
    var c := Canonicalize(s);
    if c.family == IPv4 {
      IPv4TextIsCanonical(c.bytes);
    } else {
      IPv6TextIsCanonical(c.bytes);
    }
  }

  /** Two hosts get the same canonical text exactly when they are the same address. */
  lemma SameTextSameAddress(s: string, t: string)
    requires Canonicalize(s).IsAddress() && Canonicalize(t).IsAddress()
    ensures Canonicalize(s).text == Canonicalize(t).text <==>
      Canonicalize(s).family == Canonicalize(t).family && Canonicalize(s).bytes == Canonicalize(t).bytes
  {
    hide Verdict, ParseBracketed, IPv4Text, IPv6Text, AddressBytes;
    CanonicalizeIsIdempotent(s);
    CanonicalizeIsIdempotent(t);
  }

  /** A host is an IPv6 address exactly when its inside is in the grammar, with that meaning. */
  lemma IPv6Exactly(s: string, b: seq<Byte>)
    ensures Canonicalize(s).family == IPv6 && Canonicalize(s).bytes == b <==>
      Bracketed(s) && Ipv6Grammar.Denotes(s[1..|s| - 1], b)
  {
    hide Verdict, Ipv6Scan.Parse, Ipv6Grammar.Denotes, IPv4Text, IPv6Text, AddressBytes, HasIPv6Punctuation;
    if Bracketed(s) {
      assert s == "[" + s[1..|s| - 1] + "]";
      BracketedIsNeutralForIPv4(s[1..|s| - 1]);
      Ipv6Scan.ParseExact(s[1..|s| - 1], b);
    }
  }

  /**
   * A host whose parts are all numbers is an IPv4 address exactly when every value but the
   * last fits a byte and the last fits the bytes that remain; the bytes then spell that
   * number. Otherwise it is broken.
   */
  lemma IPv4Exactly(s: string)
    requires LooksLikeIPv4(s) && AllNumeric(Parts(s))
    ensures var vs, c := Values(Parts(s)), Canonicalize(s);
      if (forall i :: 0 <= i < |vs| - 1 ==> vs[i] <= 255) && vs[|vs| - 1] < Pow(256, 5 - |vs|)
      then c.family == IPv4 && |c.bytes| == 4 && FromBytes(c.bytes) == AddressNumber(vs)
      else c.family == Broken
  {
    hide IPv4Text, AddressBytes, Parts, LooksLikeIPv4, AllNumeric, FromBytes, AddressNumber;
    LooksLikeBounds(s);
    var vs := Values(Parts(s));
    if Fits(vs) { AddressBytesExact(vs); }
  }

  /** A host made of numbers, by the IPv4 grammar: an address exactly if they fill four bytes, else broken. */
  lemma NumbersExactly(s: string, vs: seq<nat>)
    requires Ipv4Grammar.Denotes(s, vs)
    ensures
      var c := Canonicalize(s);
      if Ipv4Grammar.FillFourBytes(vs)
      then
        && c.family == IPv4 && |c.bytes| == 4
        && FromBytes(c.bytes) == Ipv4Grammar.Address(vs) && c.text == IPv4Text(c.bytes)
      else c == Canonical(Broken, [], "")
  {
    hide Ipv4Grammar.Denotes, Ipv4Grammar.FillFourBytes, Ipv4Grammar.Address;
    hide Verdict, AddressBytes, IPv4Text, FromBytes, Parts;
    Ipv4Grammar.AddressExactly(s, vs);
    if Verdict(s) == IPv4 { Four(s); }
  }

  lemma Four(s: string)
    requires Verdict(s) == IPv4
    ensures |AddressBytes(Values(Parts(s)))| == 4
  {}

  /** An IPv6 literal in brackets. */
  ghost predicate IsIPv6Host(s: string, b: seq<Byte>) {
    exists t :: s == "[" + t + "]" && Ipv6Grammar.Denotes(t, b)
  }

  /** Any other host: an IPv6 address if it is one in brackets, else broken exactly if it holds a bracket or colon. */
  lemma OthersExactly(s: string)
    requires forall vs :: !Ipv4Grammar.Denotes(s, vs)
    ensures forall b :: IsIPv6Host(s, b) ==> |b| == 16 && Canonicalize(s) == Canonical(IPv6, b, "[" + IPv6Text(b) + "]")
    ensures (forall b :: !IsIPv6Host(s, b)) ==>
      Canonicalize(s) == Canonical(if '[' in s || ']' in s || ':' in s then Broken else Neutral, [], "")
  {
    hide Ipv4Grammar.Denotes, IsIPv6Host, Verdict, ParseBracketed, IPv6Text, IPv4Text;
    Ipv4Grammar.NeutralExactly(s);
    assert HasIPv6Punctuation(s) <==> '[' in s || ']' in s || ':' in s;
    HostIs(s, Canonicalize(s).bytes);
    forall b ensures Canonicalize(s).family == IPv6 && Canonicalize(s).bytes == b <==> IsIPv6Host(s, b) {
      HostIs(s, b);
    }
  }

  lemma HostIs(s: string, b: seq<Byte>)
    ensures Canonicalize(s).family == IPv6 && Canonicalize(s).bytes == b <==> IsIPv6Host(s, b)
  {
    hide Canonicalize, Ipv6Grammar.Denotes;
    IPv6Exactly(s, b);
    if Bracketed(s) {
      assert s == "[" + s[1..|s| - 1] + "]";
    }
    forall t | s == "[" + t + "]" ensures Bracketed(s) && t == s[1..|s| - 1] {}
  }

  lemma LooksLikeBounds(s: string)
    requires LooksLikeIPv4(s)
    ensures 1 <= |Parts(s)| <= 4
  {}

  // ---- the canonicalizer ------------------------------------------------------------------

  class HostInfo {
    var family: Family
    var numIPv4Components: nat
    var outHost: Component
    const address: array<Byte>

    constructor ()
      ensures family == Neutral && numIPv4Components == 0 && outHost == NO_COMPONENT
      ensures fresh(address) && address.Length == 16
    {
      family, numIPv4Components, outHost := Neutral, 0, NO_COMPONENT;
      address := new Byte[16](_ => 0);
    }
  }

  /** Decides IPv4 and Broken; a false result leaves the host to the IPv6 reader. */
  method CanonicalizeIPv4Address(spec: string, host: Component, output: CanonOutput.Output, info: HostInfo)
    returns (decided: bool)
    requires host.Within(|spec|) && output.Valid() && info.address.Length == 16
    modifies output, output.buffer, info, info.address
    ensures output.Valid() && (output.buffer == old(output.buffer) || fresh(output.buffer))
    ensures info.family == Verdict(host.Of(spec)) && (decided <==> info.family != Neutral)
    ensures info.family == IPv4 ==>
      var c := Canonicalize(host.Of(spec));
      && info.address[..4] == c.bytes && info.numIPv4Components == |Parts(host.Of(spec))|
      && output.Contents() == CanonOutput.PushAll(old(output.Contents()), c.text)
      && info.outHost == Component(old(output.curLen), output.curLen - old(output.curLen))
    ensures info.family != IPv4 ==>
      && output.Contents() == old(output.Contents()) && output.buffer == old(output.buffer)
      && info.outHost == old(info.outHost)
  {
    hide LooksLikeIPv4, AllNumeric, Parts, Fits, AddressBytes, IPv4Text, CanonOutput.PushAll;
    var family, n := Ipv4Reader.IPv4AddressToNumber(spec, host, info.address, 0);
    info.family := family;
    if family == IPv4 {
      info.numIPv4Components := n;
      var begin := output.curLen;
      assert info.address[0..4] == info.address[..4];
      AppendIPv4Address(info.address[..4], output);
      info.outHost := Component(begin, output.curLen - begin);
      return true;
    }
    return family == Broken;
  }

  method CanonicalizeIPv6Address(spec: string, host: Component, output: CanonOutput.Output, info: HostInfo)
    returns (decided: bool)
    requires host.Within(|spec|) && output.Valid() && info.address.Length == 16
    modifies output, output.buffer, info, info.address
    ensures output.Valid() && (output.buffer == old(output.buffer) || fresh(output.buffer))
    ensures decided <==> info.family != Neutral
    ensures match ParseBracketed(host.Of(spec))
            case Some(b) =>
              && info.family == IPv6 && info.address[..] == b
              && output.Contents() == CanonOutput.PushAll(old(output.Contents()), "[" + IPv6Text(b) + "]")
              && info.outHost == Component(old(output.curLen), output.curLen - old(output.curLen))
            case None =>
              && info.family == (if HasIPv6Punctuation(host.Of(spec)) then Broken else Neutral)
              && output.Contents() == old(output.Contents()) && output.buffer == old(output.buffer)
              && info.outHost == old(info.outHost)
  {
    hide ParseBracketed, IPv6Text, CanonOutput.PushAll, CanonOutput.Push;
    var ok := IPv6AddressToNumber(spec, host, info.address);
    if !ok {
      for i := host.begin to host.begin + if host.len < 0 then 0 else host.len
        invariant forall j :: 0 <= j < i - host.begin ==>
          host.Of(spec)[j] != '[' && host.Of(spec)[j] != ']' && host.Of(spec)[j] != ':'
        invariant output.Contents() == old(output.Contents()) && output.buffer == old(output.buffer)
        invariant output.Valid() && info.outHost == old(info.outHost)
      {
        assert spec[i] == host.Of(spec)[i - host.begin];
        if spec[i] == '[' || spec[i] == ']' || spec[i] == ':' {
          info.family := Broken;
          return true;
        }
      }
      info.family := Neutral;
      return false;
    }
    var begin := output.curLen;
    ghost var b, start := info.address[..], output.Contents();
    output.PushBack('[');
    AppendIPv6Address(info.address[..], output);
    output.PushBack(']');
    BracketedPush(start, IPv6Text(b));
    info.outHost := Component(begin, output.curLen - begin);
    info.family := IPv6;
    return true;
  }

  lemma BracketedPush(o: CanonOutput.Content, t: string)
    ensures CanonOutput.PushAll(o, "[" + t + "]") ==
      CanonOutput.Push(CanonOutput.PushAll(CanonOutput.Push(o, '['), t), ']')
  {
    CanonOutput.PushAllAppend(o, "[", t);
    assert "["[..0] == "" && CanonOutput.PushAll(o, "") == o;
    assert CanonOutput.PushAll(o, "[") == CanonOutput.Push(o, '[');
    assert ("[" + t + "]")[..|t| + 1] == "[" + t;
  }

  /** Classifies the host and appends its canonical text to the output. */
  method CanonicalizeIPAddress(spec: string, host: Component, output: CanonOutput.Output, info: HostInfo)
    requires host.Within(|spec|) && output.Valid() && info.address.Length == 16
    modifies output, output.buffer, info, info.address
    ensures output.Valid()
    ensures var c := Canonicalize(host.Of(spec));
      && info.family == c.family
      && (c.IsAddress() ==> info.address[..|c.bytes|] == c.bytes)
      && (c.family == IPv4 ==> info.numIPv4Components == |Parts(host.Of(spec))|)
      && output.Contents() == CanonOutput.PushAll(old(output.Contents()), c.text)
      && info.outHost == if c.IsAddress() then Component(old(output.curLen), output.curLen - old(output.curLen))
                         else old(info.outHost)
  {
    hide Verdict, ParseBracketed, Parts, AddressBytes, IPv4Text, IPv6Text, HasIPv6Punctuation;
    var decided := CanonicalizeIPv4Address(spec, host, output, info);
    if decided {
      return;
    }
    decided := CanonicalizeIPv6Address(spec, host, output, info);
    assert info.family == IPv6 ==> info.address[..16] == info.address[..];
  }

  /** With room for it, the text appended is the canonical text, unabridged, at the reported place. */
  lemma AppendedText(o: CanonOutput.Content, s: string)
    requires |o.text| <= o.room && |o.text| + |Canonicalize(s).text| <= CanonOutput.MAX_GROWABLE
    ensures CanonOutput.PushAll(o, Canonicalize(s).text).text == o.text + Canonicalize(s).text
  {
    CanonOutput.PushAllKeepsText(o, Canonicalize(s).text);
  }
}
