/** The IPv6 reader: finding the components, checking their sizes, filling the sixteen bytes. */
module Ipv6Reader {
  import opened Wrappers
  import opened UrlChars
  import opened Ipv4Spec
  import Ipv4Reader
  import opened Ipv6Grammar
  import opened Ipv6Scan

  /** The main components of an IPv6 text, as positions in it. */
  class IPv6Parsed {
    const hexComponents: array<Component>
    var numHexComponents: nat
    var indexOfContraction: int
    var ipv4Component: Component

    constructor ()
      ensures fresh(hexComponents) && hexComponents.Length == 8
      ensures numHexComponents == 0 && indexOfContraction == -1 && ipv4Component == NO_COMPONENT
    {
      hexComponents := new Component[8](_ => NO_COMPONENT);
      numHexComponents := 0;
      indexOfContraction := -1;
      ipv4Component := NO_COMPONENT;
    }

    method Add(c: Component)
      requires hexComponents.Length == 8 && numHexComponents < 8
      modifies `numHexComponents, hexComponents
      ensures numHexComponents == old(numHexComponents) + 1
      ensures hexComponents[..numHexComponents] == old(hexComponents[..numHexComponents]) + [c]
    {
      hexComponents[numHexComponents] := c;
      numHexComponents := numHexComponents + 1;
    }
  }

  ghost predicate AllWithin(spec: string, cs: seq<Component>) {
    forall j :: 0 <= j < |cs| ==> cs[j].Within(|spec|)
  }

  ghost function Texts(spec: string, cs: seq<Component>): (r: seq<string>)
    requires AllWithin(spec, cs)
    ensures |r| == |cs| && forall j :: 0 <= j < |r| ==> r[j] == cs[j].Of(spec)
  {
    seq(|cs|, j requires 0 <= j < |cs| => cs[j].Of(spec))
  }

  ghost function GapOf(index: int): Option<nat> {
    if index < 0 then None else Some(index)
  }

  /**
   * The scan at position `i`, with the current component starting at `cur`: scanning the
   * whole host comes to the same as going on from `cur` with what was found.
   */
  ghost predicate Scanning(spec: string, host: Component, hex: seq<Component>, index: int, cur: int, i: int) {
    && host.Within(|spec|) && host.IsNonempty() && host.End() < |spec| && AllWithin(spec, hex) && |hex| <= 8
    && host.begin <= cur <= i <= host.End() && AllHex(spec[cur..i])
    && -1 <= index <= |hex|
    && ScanAll(host.Of(spec)) == Scan(spec[cur..host.End()], cur == host.begin, Texts(spec, hex), GapOf(index))
  }

  lemma ScanStart(spec: string, host: Component)
    requires host.Within(|spec|) && host.IsNonempty() && host.End() < |spec|
    ensures Scanning(spec, host, [], -1, host.begin, host.begin)
  {}

  lemma ScanHexDigit(spec: string, host: Component, hex: seq<Component>, index: int, cur: int, i: int)
    requires Scanning(spec, host, hex, index, cur, i) && i < host.End() && IsHexChar(spec[i])
    ensures Scanning(spec, host, hex, index, cur, i + 1)
  {
    hide ScanAll, Scan, Texts, AllWithin, IsHexChar;
    CutNext(spec, cur, i);
  }

  /** The hexadecimal run of the current component ends at `i`. */
  lemma RunEnds(spec: string, host: Component, hex: seq<Component>, index: int, cur: int, i: int)
    requires Scanning(spec, host, hex, index, cur, i) && (i == host.End() || !IsHexChar(spec[i]))
    ensures HexRun(spec[cur..host.End()]) == i - cur
  {
    hide ScanAll, Scan, Texts, AllWithin, AllHex, IsHexChar, HexRun;
    var x, y := spec[cur..i], spec[i..host.End()];
    CutAt(spec, cur, i, host.End());
    assert y == "" || y[0] == spec[i];
    HexRunEnds(x, y);
  }

  /** The components found, after the one in progress is added unless it is empty. */
  ghost function Added(hex: seq<Component>, cur: int, i: int): seq<Component> {
    if cur < i then hex + [Component(cur, i - cur)] else hex
  }

  lemma TextsAdded(spec: string, hex: seq<Component>, cur: int, i: int, end: int)
    requires AllWithin(spec, hex) && 0 <= cur <= i <= end <= |spec|
    ensures AllWithin(spec, Added(hex, cur, i))
    ensures Texts(spec, Added(hex, cur, i)) ==
      if cur < i then Texts(spec, hex) + [spec[cur..end][..i - cur]] else Texts(spec, hex)
  {
    assert spec[cur..end][..i - cur] == spec[cur..i];
  }

  /** The scan accepts the component that ends at `i`. */
  ghost predicate Accepted(spec: string, host: Component, hex: seq<Component>, index: int, cur: int, i: int)
    requires 0 <= host.begin <= cur <= i <= host.End() < |spec| && AllWithin(spec, hex)
  {
    Acceptable(spec[cur..host.End()], i - cur, cur == host.begin, Texts(spec, hex), GapOf(index))
  }

  /** The same in terms of positions. */
  lemma AcceptedMeans(spec: string, host: Component, hex: seq<Component>, index: int, cur: int, i: int)
    requires 0 <= host.begin <= cur <= i <= host.End() < |spec| && AllWithin(spec, hex)
    requires (i == host.End() || spec[i] == ':') && -1 <= index
    ensures var pair := i + 1 < host.End() && spec[i] == spec[i + 1] == ':';
      Accepted(spec, host, hex, index, cur, i) <==>
      && i - cur <= 4
      && (i == cur ==> (pair && i == host.begin) || (i == host.End() && index == |hex|))
      && (i > cur ==> |hex| < 8)
  {
    var rest := spec[cur..host.End()];
    assert i + 1 < host.End() ==> rest[i - cur + 1] == spec[i + 1];
  }

  lemma BeyondTheTable(c: char)
    requires c as int >= 0x80
    ensures !IsHexChar(c) && !IsIPv4Char(c)
  {}

  lemma SeparatorIsNotHex()
    ensures !IsHexChar(':')
  {}

  /** What stands behind position `i` of a slice. */
  lemma Behind(spec: string, cur: nat, i: nat, end: nat)
    requires cur <= i < end <= |spec|
    ensures var rest := spec[cur..end]; rest[i - cur] == spec[i] && rest[i - cur + 1..] == spec[i + 1..end]
  {}

  /** A component that ends at a colon or at the end of the host: what scanning the host comes to. */
  lemma ComponentEnds(spec: string, host: Component, hex: seq<Component>, index: int, cur: int, i: int)
    requires Scanning(spec, host, hex, index, cur, i) && (i == host.End() || spec[i] == ':')
    ensures AllWithin(spec, Added(hex, cur, i))
    ensures var rest := spec[cur..host.End()];
      ScanAll(host.Of(spec)) ==
      if !Accepted(spec, host, hex, index, cur, i) then None
      else if i == host.End() then Some(Literal(Texts(spec, Added(hex, cur, i)), GapOf(index), None))
      else if i + 1 < host.End() && spec[i + 1] == ':' then
        if index != -1 then None
        else Scan(spec[i + 2..host.End()], false, Texts(spec, Added(hex, cur, i)), Some(|Added(hex, cur, i)|))
      else Scan(spec[i + 1..host.End()], false, Texts(spec, Added(hex, cur, i)), GapOf(index))
  {
    hide HexRun, ScanAll, Scan, Texts, IsHexChar, Acceptable, AllHex, AllWithin;
    SeparatorIsNotHex();
    RunEnds(spec, host, hex, index, cur, i);
    TextsAdded(spec, hex, cur, i, host.End());
    var rest, e := spec[cur..host.End()], i - cur;
    ScanStep(rest, e, cur == host.begin, Texts(spec, hex), GapOf(index));
    if i < host.End() { Behind(spec, cur, i, host.End()); }
    if i + 1 < host.End() { Behind(spec, cur, i + 1, host.End()); }
  }

  /** After an accepted component the scan goes on behind its colon or colon pair. */
  lemma ComponentContinues(spec: string, host: Component, hex: seq<Component>, index: int, cur: int, i: int)
    requires Scanning(spec, host, hex, index, cur, i) && i < host.End() && spec[i] == ':'
    requires Accepted(spec, host, hex, index, cur, i)
    ensures AllWithin(spec, Added(hex, cur, i)) && |Added(hex, cur, i)| <= 8
    ensures i + 1 < host.End() && spec[i + 1] == ':' && index == -1 ==>
      Scanning(spec, host, Added(hex, cur, i), |Added(hex, cur, i)|, i + 2, i + 2)
    ensures !(i + 1 < host.End() && spec[i + 1] == ':') ==>
      Scanning(spec, host, Added(hex, cur, i), index, i + 1, i + 1)
  {
    hide ScanAll, Scan, Texts;
    ComponentEnds(spec, host, hex, index, cur, i);
    AcceptedMeans(spec, host, hex, index, cur, i);
  }

  /** A character that is neither hexadecimal nor a colon: the IPv4 tail or the end of it. */
  lemma OtherCharacter(spec: string, host: Component, hex: seq<Component>, index: int, cur: int, i: int)
    requires Scanning(spec, host, hex, index, cur, i) && i < host.End() && spec[i] != ':' && !IsHexChar(spec[i])
    ensures ScanAll(host.Of(spec)) ==
      if IsIPv4Char(spec[i]) then Some(Literal(Texts(spec, hex), GapOf(index), Some(spec[cur..host.End()]))) else None
  {
    hide HexRun, ScanAll;
    RunEnds(spec, host, hex, index, cur, i);
  }

  /** The literal the components stand for. */
  ghost function Described(spec: string, hex: seq<Component>, index: int, v4: Component): Literal
    requires AllWithin(spec, hex) && v4.Within(|spec|)
  {
    Literal(Texts(spec, hex), GapOf(index), if v4.IsValid() then Some(v4.Of(spec)) else None)
  }

  /** Adds the component that ends at `i`, unless it may not stand there. */
  method EndComponent(spec: string, host: Component, parsed: IPv6Parsed, cur: int, i: int, isContraction: bool)
    returns (ok: bool)
    requires 0 <= host.begin <= cur <= i <= host.End() < |spec| && (i == host.End() || spec[i] == ':')
    requires isContraction <==> i + 1 < host.End() && spec[i] == spec[i + 1] == ':'
    requires parsed.hexComponents.Length == 8 && parsed.numHexComponents <= 8 && -1 <= parsed.indexOfContraction
    requires AllWithin(spec, parsed.hexComponents[..parsed.numHexComponents])
    modifies parsed`numHexComponents, parsed.hexComponents
    ensures parsed.numHexComponents <= 8
    ensures var hex := old(parsed.hexComponents[..parsed.numHexComponents]);
      && (ok <==> Accepted(spec, host, hex, parsed.indexOfContraction, cur, i))
      && (ok ==> parsed.hexComponents[..parsed.numHexComponents] == Added(hex, cur, i))
  {
    hide Accepted, AllWithin;
    AcceptedMeans(spec, host, parsed.hexComponents[..parsed.numHexComponents], parsed.indexOfContraction, cur, i);
    var componentLen := i - cur;
    if componentLen > 4 {
      return false;
    }
    if componentLen == 0 {
      return (isContraction && i == host.begin) ||
             (i == host.End() && parsed.indexOfContraction == parsed.numHexComponents);
    }
    if parsed.numHexComponents >= 8 {
      return false;
    }
    parsed.Add(Component(cur, componentLen));
    return true;
  }

  /** Finds the hexadecimal components, the "::" and the IPv4 component of the host. */
  method ParseIPv6(spec: string, host: Component, parsed: IPv6Parsed) returns (ok: bool)
    requires host.Within(|spec|) && host.End() < |spec|
    requires parsed.hexComponents.Length == 8
    modifies parsed, parsed.hexComponents
    ensures ok <==> ScanAll(host.Of(spec)).Some?
    ensures ok ==>
      && parsed.numHexComponents <= 8 && -1 <= parsed.indexOfContraction <= parsed.numHexComponents
      && AllWithin(spec, parsed.hexComponents[..parsed.numHexComponents])
      && parsed.ipv4Component.Within(|spec|)
      && ScanAll(host.Of(spec)) == Some(Described(spec, parsed.hexComponents[..parsed.numHexComponents],
                                                  parsed.indexOfContraction, parsed.ipv4Component))
  {
    hide ScanAll, Scanning, Scan, Accepted, Texts, AllWithin, IsIPv4Char, IsHexChar;
    parsed.numHexComponents, parsed.indexOfContraction, parsed.ipv4Component := 0, -1, NO_COMPONENT;
    if !host.IsNonempty() {
      EmptyScan();
      return false;
    }
    var begin, end := host.begin, host.End();
    var cur := begin;
    var i := begin;
    assert parsed.hexComponents[..0] == [];
    ScanStart(spec, host);
    while true
      invariant parsed.numHexComponents <= 8 && parsed.ipv4Component == NO_COMPONENT
      invariant Scanning(spec, host, parsed.hexComponents[..parsed.numHexComponents], parsed.indexOfContraction, cur, i)
      decreases end - i
    {
      ghost var hex := parsed.hexComponents[..parsed.numHexComponents];
      ScanningBounds(spec, host, hex, parsed.indexOfContraction, cur, i);
      var isColon := spec[i] == ':';
      var isContraction := isColon && i < end - 1 && spec[i + 1] == ':';
      if isColon || i == end {
        ComponentEnds(spec, host, hex, parsed.indexOfContraction, cur, i);
        if i < end && Accepted(spec, host, hex, parsed.indexOfContraction, cur, i) {
          ComponentContinues(spec, host, hex, parsed.indexOfContraction, cur, i);
        }
        var added := EndComponent(spec, host, parsed, cur, i, isContraction);
        if !added {
          return false;
        }
      }
      if i == end {
        break;
      }
      if isContraction {
        if parsed.indexOfContraction != -1 {
          return false;
        }
        parsed.indexOfContraction := parsed.numHexComponents;
        i := i + 1;
      }
      if isColon {
        cur := i + 1;
      } else {
        if spec[i] as int >= 0x80 {
          BeyondTheTable(spec[i]);
          OtherCharacter(spec, host, hex, parsed.indexOfContraction, cur, i);
          return false;
        }
        if !IsHexChar(spec[i]) {
          OtherCharacter(spec, host, hex, parsed.indexOfContraction, cur, i);
          if IsIPv4Char(spec[i]) {
            parsed.ipv4Component := Component(cur, end - cur);
            break;
          } else {
            return false;
          }
        }
        ScanHexDigit(spec, host, hex, parsed.indexOfContraction, cur, i);
      }
      i := i + 1;
    }
    return true;
  }

  lemma EmptyScan()
    ensures ScanAll("").None?
  {}

  lemma ScanningBounds(spec: string, host: Component, hex: seq<Component>, index: int, cur: int, i: int)
    requires Scanning(spec, host, hex, index, cur, i)
    ensures 0 <= host.begin <= cur <= i <= host.End() < |spec| && -1 <= index <= |hex| && AllWithin(spec, hex)
  {}

  /** The components add up to sixteen bytes; a "::" stands for what is missing, at least two bytes. */
  method CheckIPv6ComponentsSize(parsed: IPv6Parsed) returns (ok: bool, numBytesOfContraction: nat)
    requires -1 <= parsed.ipv4Component.len
    ensures var n := 2 * parsed.numHexComponents + if parsed.ipv4Component.IsValid() then 4 else 0;
      && (ok <==> if parsed.indexOfContraction != -1 then n <= 14 else n == 16)
      && (ok ==> n + numBytesOfContraction == 16)
  {
    var numBytesWithoutContraction := parsed.numHexComponents * 2;
    if parsed.ipv4Component.IsValid() {
      numBytesWithoutContraction := numBytesWithoutContraction + 4;
    }
    numBytesOfContraction := 0;
    if parsed.indexOfContraction != -1 {
      numBytesOfContraction := if 16 - numBytesWithoutContraction < 2 then 2 else 16 - numBytesWithoutContraction;
    }
    ok := numBytesWithoutContraction + numBytesOfContraction == 16;
  }

  /** The first n bytes a literal stands for, written group by group with the gap in its place. */
  ghost function BytesUpTo(lit: Literal, n: nat, contraction: nat): (b: seq<Byte>)
    requires n <= |lit.groups|
  {
    if lit.gap.Some? && lit.gap.value < n then
      GroupsBytes(lit.groups[..lit.gap.value]) + Zeros(contraction) + GroupsBytes(lit.groups[lit.gap.value..n])
    else GroupsBytes(lit.groups[..n])
  }

  lemma BytesUpToNext(lit: Literal, n: nat, contraction: nat)
    requires n < |lit.groups|
    ensures var here := if lit.gap == Some(n) then Zeros(contraction) else [];
      BytesUpTo(lit, n + 1, contraction) == BytesUpTo(lit, n, contraction) + here + GroupBytes(lit.groups[n])
  {
    assert lit.groups[..n + 1] == lit.groups[..n] + [lit.groups[n]];
    if lit.gap.Some? && lit.gap.value <= n {
      var k := lit.gap.value;
      assert lit.groups[k..n + 1] == lit.groups[k..n] + [lit.groups[n]];
      if k == n { assert lit.groups[n..n] == []; }
    }
  }

  /** The groups and the gap together are the meaning without its IPv4 tail. */
  lemma BytesUpToAll(lit: Literal)
    requires WellFormed(lit)
    ensures var here := if lit.gap == Some(|lit.groups|) then Zeros(16 - Size(lit)) else [];
      Meaning(lit) == BytesUpTo(lit, |lit.groups|, 16 - Size(lit)) + here + TailBytes(lit.v4)
  {
    hide GroupsBytes, Zeros, TailBytes, AllGroups, Verdict, IsTail;
    assert lit.groups[..|lit.groups|] == lit.groups;
    if lit.gap.Some? {
      var k := lit.gap.value;
      assert lit.groups[k..|lit.groups|] == lit.groups[k..];
      if k == |lit.groups| {
        assert lit.groups[k..] == [];
        NoGroups();
      }
    }
  }

  lemma BytesUpToLength(lit: Literal, n: nat, contraction: nat)
    requires n <= |lit.groups|
    ensures |BytesUpTo(lit, n, contraction)| == 2 * n + if lit.gap.Some? && lit.gap.value < n then contraction else 0
  {}

  /** Reads a hexadecimal component; four digits cannot overflow sixteen bits. */
  method IPv6HexComponentToNumber(spec: string, component: Component) returns (number: nat)
    requires component.Within(|spec|) && IsGroup(component.Of(spec))
    ensures number == Value(component.Of(spec), Hex) < 0x1_0000
  {
    var buf := component.Of(spec);
    assert AllOfBase(buf, Hex);
    ValueUpperBound(buf, Hex);
    PowMono(16, |buf|, 4);
    assert Pow(16, 4) == 0x1_0000;
    number := Value(buf, Hex);
  }

  /** Writes `n` zero bytes from `at` on. */
  method WriteZeros(address: array<Byte>, at: nat, n: nat)
    requires at + n <= address.Length
    modifies address
    ensures address[..at + n] == old(address[..at]) + Zeros(n)
  {
    for j := 0 to n
      invariant address[..at + j] == old(address[..at]) + Zeros(j)
    {
      address[at + j] := 0;
      assert address[..at + j + 1] == address[..at + j] + [0];
      assert Zeros(j + 1) == Zeros(j) + [0];
    }
  }

  /** Writes the two bytes of a group, in network order. */
  method WriteGroup(spec: string, c: Component, address: array<Byte>, at: nat)
    requires c.Within(|spec|) && IsGroup(c.Of(spec)) && at + 2 <= address.Length
    modifies address
    ensures address[..at + 2] == old(address[..at]) + GroupBytes(c.Of(spec))
  {
    hide IsGroup, GroupBytes;
    var number := IPv6HexComponentToNumber(spec, c);
    GroupBytesOf(c.Of(spec), number);
    address[at] := number / 256;
    address[at + 1] := number % 256;
    assert address[..at + 2] == old(address[..at]) + [number / 256, number % 256];
  }

  /** Fills the address from the components found, gap included, up to the IPv4 tail. */
  method FillGroups(spec: string, hex: seq<Component>, index: int, contraction: nat, address: array<Byte>,
                    ghost lit: Literal)
    returns (filled: nat)
    requires address.Length == 16 && AllWithin(spec, hex) && -1 <= index <= |hex|
    requires lit.groups == Texts(spec, hex) && lit.gap == GapOf(index) && AllGroups(lit.groups)
    requires 2 * |hex| + (if index == -1 then 0 else contraction) <= 16
    modifies address
    ensures filled <= 16
    ensures address[..filled] == BytesUpTo(lit, |hex|, contraction) + if index == |hex| then Zeros(contraction) else []
  {
    hide BytesUpTo, IsGroup, GroupBytes, Zeros, AllGroups, Texts, AllWithin;
    filled := 0;
    EmptyBytes(lit, contraction);
    for i := 0 to |hex|
      invariant filled == 2 * i + if 0 <= index < i then contraction else 0
      invariant address[..filled] == BytesUpTo(lit, i, contraction)
    {
      BytesUpToNext(lit, i, contraction);
      GroupOf(spec, hex, lit.groups, i);
      if i == index {
        WriteZeros(address, filled, contraction);
        filled := filled + contraction;
      }
      WriteGroup(spec, hex[i], address, filled);
      filled := filled + 2;
    }
    if |hex| == index {
      WriteZeros(address, filled, contraction);
      filled := filled + contraction;
    }
  }

  lemma GroupOf(spec: string, hex: seq<Component>, groups: seq<string>, i: nat)
    requires AllWithin(spec, hex) && groups == Texts(spec, hex) && AllGroups(groups) && i < |hex|
    ensures i < |groups| && hex[i].Within(|spec|) && groups[i] == hex[i].Of(spec) && IsGroup(groups[i])
  {
    hide IsGroup;
  }

  lemma EmptyBytes(lit: Literal, contraction: nat)
    ensures BytesUpTo(lit, 0, contraction) == []
  {}

  lemma GroupBytesOf(g: string, number: nat)
    requires number == Value(g, Hex) < 0x1_0000
    ensures GroupBytes(g) == [number / 256, number % 256]
  {}

  /** The bracketed text of an IPv6 literal. */
  predicate Bracketed(s: string) { |s| >= 2 && s[0] == '[' && s[|s| - 1] == ']' }

  function ParseBracketed(s: string): (r: Option<seq<Byte>>)
    ensures r.Some? ==> |r.value| == 16
  {
    if Bracketed(s) then Parse(s[1..|s| - 1]) else None
  }

  /** Reads a bracketed IPv6 literal into sixteen bytes. */
  method IPv6AddressToNumber(spec: string, host: Component, address: array<Byte>) returns (ok: bool)
    requires host.Within(|spec|) && address.Length == 16
    modifies address
    ensures ok <==> ParseBracketed(host.Of(spec)).Some?
    ensures ok ==> Some(address[..]) == ParseBracketed(host.Of(spec))
  {
    hide Parse;
    var end := host.End();
    if !host.IsNonempty() || spec[host.begin] != '[' || spec[end - 1] != ']' {
      return false;
    }
    // Exclude the square brackets.
    var inner := Component(host.begin + 1, host.len - 2);
    InsideBrackets(spec, host);
    ok := ReadInner(spec, inner, address);
  }

  lemma InsideBrackets(spec: string, host: Component)
    requires host.Within(|spec|) && host.len >= 2
    ensures Component(host.begin + 1, host.len - 2).Of(spec) == host.Of(spec)[1..|host.Of(spec)| - 1]
  {
    SliceInside(spec, host.begin, host.End());
  }

  lemma SliceInside(s: string, i: nat, j: nat)
    requires i + 2 <= j <= |s|
    ensures s[i + 1..j - 1] == s[i..j][1..|s[i..j]| - 1]
  {
    var x, y := s[i + 1..j - 1], s[i..j][1..j - i - 1];
    forall k | 0 <= k < |x| ensures x[k] == y[k] {
      assert x[k] == s[i + 1 + k] && y[k] == s[i..j][k + 1];
    }
  }

  method ReadInner(spec: string, inner: Component, address: array<Byte>) returns (ok: bool)
    requires inner.Within(|spec|) && 0 <= inner.len && inner.End() < |spec| && address.Length == 16
    modifies address
    ensures ok <==> Parse(inner.Of(spec)).Some?
    ensures ok ==> Some(address[..]) == Parse(inner.Of(spec))
  {
    hide ScanAll, Texts, BytesUpTo, Shaped, Meaning, Verdict, AddressBytes;
    var parsed := new IPv6Parsed();
    var found := ParseIPv6(spec, inner, parsed);
    if !found {
      return false;
    }
    var hex := parsed.hexComponents[..parsed.numHexComponents];
    ghost var lit := Described(spec, hex, parsed.indexOfContraction, parsed.ipv4Component);
    ScannedIsShaped(inner.Of(spec), lit);
    var sized, contraction := CheckIPv6ComponentsSize(parsed);
    assert sized <==> Sized(lit);
    if !sized {
      return false;
    }
    assert contraction == 16 - Size(lit);
    var filled := FillGroups(spec, hex, parsed.indexOfContraction, contraction, address, lit);
    ok := ReadTail(spec, parsed.ipv4Component, address, filled, lit);
  }

  lemma ScannedIsShaped(s: string, lit: Literal)
    requires ScanAll(s) == Some(lit)
    ensures Shaped(lit) && AllGroups(lit.groups)
  {
    ScanExact(s, lit);
  }

  /** Reads the IPv4 tail, if there is one, behind the bytes already filled. */
  method ReadTail(spec: string, v4: Component, address: array<Byte>, filled: nat, ghost lit: Literal) returns (ok: bool)
    requires v4.Within(|spec|) && address.Length == 16 && Shaped(lit) && Sized(lit)
    requires lit.v4 == if v4.IsValid() then Some(v4.Of(spec)) else None
    requires filled <= 16 && address[..filled] == BytesUpTo(lit, |lit.groups|, 16 - Size(lit)) +
      if lit.gap == Some(|lit.groups|) then Zeros(16 - Size(lit)) else []
    modifies address
    ensures ok <==> WellFormed(lit)
    ensures ok ==> address[..] == Meaning(lit)
  {
    hide Verdict, AddressBytes, BytesUpTo, Meaning, AllGroups, IsTail;
    BytesUpToLength(lit, |lit.groups|, 16 - Size(lit));
    ghost var front := address[..filled];
    if v4.IsValid() {
      var family, _ := Ipv4Reader.IPv4AddressToNumber(spec, v4, address, filled);
      if family != IPv4 {
        return false;
      }
      LastFour(address, filled);
    } else {
      assert address[..] == address[..filled] + [];
    }
    BytesUpToAll(lit);
    return true;
  }

  lemma LastFour(address: array<Byte>, filled: nat)
    requires filled + 4 == 16 == address.Length
    ensures address[..] == address[..filled] + address[filled..filled + 4]
  {}
}
