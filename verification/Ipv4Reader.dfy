/** The IPv4 reader: splitting a host, reading one part, filling the four address bytes. */
module Ipv4Reader {
  import opened UrlChars
  import opened Ipv4Spec

  const MAX_COMPONENT_LEN := 16

  type UInt64 = x: int | 0 <= x < 0x1_0000_0000_0000_0000

  /** With the leading zeros gone, sixteen digits are always too large, and so is the whole part. */
  lemma TruncationIsSafe(t: string, base: Base)
    requires |t| > MAX_COMPONENT_LEN && AllOfBase(t, base) && t[0] != '0'
    ensures Value(t, base) > MAX_UINT32 && Value(t[..MAX_COMPONENT_LEN], base) > MAX_UINT32
  {
    PowersExceed(base);
    ValueLowerBound(t, base);
    ValueLowerBound(t[..MAX_COMPONENT_LEN], base);
    PowMono(base.Radix(), 15, |t| - 1);
  }

  lemma PowersExceed(base: Base)
    ensures Pow(base.Radix(), MAX_COMPONENT_LEN - 1) > MAX_UINT32
  {
    assert Pow(8, 15) > MAX_UINT32;
    PowBase(8, base.Radix(), 15);
  }

  lemma SixteenHexDigits()
    ensures Pow(16, 16) == 0x1_0000_0000_0000_0000
  {
    PowAdd(16, 8, 8);
    assert Pow(16, 8) == 0x1_0000_0000;
  }

  /** Sixteen digits of any base fit the 64-bit number they are read into. */
  lemma KeptFits(t: string, base: Base)
    requires |t| <= MAX_COMPONENT_LEN && AllOfBase(t, base)
    ensures Value(t, base) < 0x1_0000_0000_0000_0000
  {
    hide Pow, Value;
    ValueUpperBound(t, base);
    PowMono(base.Radix(), |t|, 16);
    PowBase(base.Radix(), 16, 16);
    SixteenHexDigits();
  }

  /** Zeros right after the prefix of a part change neither its value nor whether it is numeric. */
  lemma SkipZeros(p: string, k: nat)
    requires PrefixLen(p) <= k <= |p| && forall i :: PrefixLen(p) <= i < k ==> p[i] == '0'
    ensures PartValue(p) == Value(p[k..], PartBase(p))
    ensures IsNumeric(p) <==> AllOfBase(p[k..], PartBase(p))
  {
    var d, zeros := PartDigits(p), k - PrefixLen(p);
    assert d[zeros..] == p[k..];
    assert forall i :: 0 <= i < zeros ==> d[i] == p[PrefixLen(p) + i];
    LeadingZeros(d, zeros, PartBase(p));
    assert forall i :: 0 <= i < |p| - k ==> p[k..][i] == d[zeros + i];
    assert forall i :: zeros <= i < |d| ==> d[i] == p[k..][i - zeros];
  }

  /** Checks every character of `t` and keeps the first sixteen. */
  method KeepDigits(t: string, base: Base) returns (ok: bool, kept: string)
    ensures ok <==> AllOfBase(t, base)
    ensures ok ==> kept == (if |t| <= MAX_COMPONENT_LEN then t else t[..MAX_COMPONENT_LEN]) && AllOfBase(kept, base)
  {
    var buf := new char[MAX_COMPONENT_LEN + 1];
    var dest := 0;
    for i := 0 to |t|
      invariant 0 <= dest <= MAX_COMPONENT_LEN && dest == if i < MAX_COMPONENT_LEN then i else MAX_COMPONENT_LEN
      invariant buf[..dest] == t[..dest]
      invariant forall j :: 0 <= j < i ==> IsCharOfBase(t[j], base)
    {
      if !IsCharOfBase(t[i], base) {
        return false, "";
      }
      if dest < MAX_COMPONENT_LEN {
        buf[dest] := t[i];
        dest := dest + 1;
      }
    }
    return true, buf[..dest];
  }

  /** Reads one nonempty part. Digits beyond the sixteenth are checked but not kept. */
  method IPv4ComponentToNumber(spec: string, component: Component) returns (family: Family, number: nat)
    requires component.Within(|spec|) && component.IsNonempty()
    ensures family == Neutral <==> !IsNumeric(component.Of(spec))
    ensures family == Broken <==> IsNumeric(component.Of(spec)) && PartValue(component.Of(spec)) > MAX_UINT32
    ensures family == IPv4 <==> IsNumeric(component.Of(spec)) && PartValue(component.Of(spec)) <= MAX_UINT32
    ensures family == IPv4 ==> number == PartValue(component.Of(spec))
  {
    hide Value, AllOfBase, PartDigits;
    var p := component.Of(spec);
    var base := Dec;
    var basePrefixLen := 0;
    if p[0] == '0' {
      if |p| == 1 {
        base := Dec;
      } else if p[1] == 'X' || p[1] == 'x' {
        base, basePrefixLen := Hex, 2;
      } else {
        base, basePrefixLen := Oct, 1;
      }
    }
    assert base == PartBase(p) && basePrefixLen == PrefixLen(p);

    // Extend the prefix over all leading zeros.
    while basePrefixLen < |p| && p[basePrefixLen] == '0'
      invariant PrefixLen(p) <= basePrefixLen <= |p|
      invariant forall i :: PrefixLen(p) <= i < basePrefixLen ==> p[i] == '0'
    {
      basePrefixLen := basePrefixLen + 1;
    }
    SkipZeros(p, basePrefixLen);

    var ok, buf := KeepDigits(p[basePrefixLen..], base);
    if !ok {
      return Neutral, 0;
    }
    if |p| - basePrefixLen > MAX_COMPONENT_LEN {
      TruncationIsSafe(p[basePrefixLen..], base);
    }
    KeptFits(buf, base);
    var num: UInt64 := Value(buf, base);
    if num > MAX_UINT32 {
      return Broken, 0;
    }
    return IPv4, num;
  }

  /** The component is the place of `part` in the text. */
  ghost predicate Names(spec: string, c: Component, part: string) {
    c.Within(|spec|) && c.IsNonempty() && c.Of(spec) == part
  }

  /** The first n components name the parts of `text`, in order, and nothing after them. */
  ghost predicate NamesParts(spec: string, components: seq<Component>, n: nat, text: string) {
    && |Parts(text)| <= n <= |components|
    && (forall j :: 0 <= j < |Parts(text)| ==> Names(spec, components[j], Parts(text)[j]))
    && (forall j :: |Parts(text)| <= j < n ==> !components[j].IsNonempty())
  }

  /** A piece that is empty although the text goes on spoils the host. */
  lemma EmptyPieceSpoils(s: string, i: nat)
    requires i < |s| && s[i] == '.'
    requires var r := SplitDots(s[..i]); r[|r| - 1] == ""
    ensures !LooksLikeIPv4(s)
  {
    var a := SplitDots(s[..i]);
    assert s[..i + 1][..i] == s[..i];
    var a' := SplitDots(s[..i + 1]);
    SplitExtends(s, i + 1);
    assert Parts(s)[|a| - 1] == a'[..|a'| - 1][|a| - 1] == "";
  }

  /** A fourth dot that does not end the text spoils the host. */
  lemma FifthPieceSpoils(s: string, i: nat)
    requires i + 1 < |s| && s[i] == '.' && |SplitDots(s[..i])| == 4
    ensures !LooksLikeIPv4(s)
  {
    hide SplitDots;
    SplitNext(s, i);
    SplitNext(s, i + 1);
    SplitExtends(s, i + 2);
  }

  /** One character more: a new piece, or more of the last one. */
  lemma SplitNext(s: string, i: nat)
    requires i < |s|
    ensures var r, q := SplitDots(s[..i]), SplitDots(s[..i + 1]);
      q == if s[i] == '.' then r + [""] else r[..|r| - 1] + [r[|r| - 1] + [s[i]]]
  {
    assert s[..i + 1][..i] == s[..i];
  }

  /** The state of the scan at position `i`: `cur` finished components, one in progress. */
  ghost predicate Scanned(spec: string, host: Component, components: seq<Component>, cur: int, curBegin: int, i: int) {
    && host.Within(|spec|) && host.IsNonempty() && |components| == 4
    && host.begin <= curBegin <= i <= host.End() && 0 <= cur <= 4 && (cur == 0 ==> curBegin == host.begin)
    && (forall j :: 0 <= j < i - host.begin ==> IsIPv4Char(host.Of(spec)[j]))
    && var r := SplitDots(host.Of(spec)[..i - host.begin]);
    && |r| == cur + 1 && r[cur] == spec[curBegin..i]
    && forall j :: 0 <= j < cur ==> Names(spec, components[j], r[j])
  }

  lemma ScanCharacter(spec: string, host: Component, components: seq<Component>, cur: int, curBegin: int, i: int)
    requires Scanned(spec, host, components, cur, curBegin, i) && i < host.End()
    requires spec[i] != '.' && IsIPv4Char(spec[i])
    ensures Scanned(spec, host, components, cur, curBegin, i + 1)
  {
    hide SplitDots, Names, IsIPv4Char;
    var s, k := host.Of(spec), i - host.begin;
    assert s[k] == spec[i];
    SplitNext(s, k);
    assert spec[curBegin..i + 1] == spec[curBegin..i] + [spec[i]];
  }

  lemma ScanDot(spec: string, host: Component, components: seq<Component>, cur: int, curBegin: int, i: int)
    requires Scanned(spec, host, components, cur, curBegin, i) && i < host.End() && cur < 4
    requires spec[i] == '.' && curBegin < i
    ensures Scanned(spec, host, components[cur := Component(curBegin, i - curBegin)], cur + 1, i + 1, i + 1)
  {
    hide SplitDots, Names, IsIPv4Char;
    var s, k := host.Of(spec), i - host.begin;
    assert s[k] == spec[i];
    DotIsIPv4Char();
    SplitNext(s, k);
    assert spec[i + 1..i + 1] == "";
    NamesPiece(spec, curBegin, i);
  }

  lemma DotIsIPv4Char()
    ensures IsIPv4Char('.')
  {}

  lemma NamesPiece(spec: string, i: nat, j: nat)
    requires i < j <= |spec|
    ensures Names(spec, Component(i, j - i), spec[i..j])
  {}

  /** A text that ends inside a piece: that piece is the last part. */
  lemma ScanLastPart(spec: string, host: Component, components: seq<Component>, cur: int, curBegin: int)
    requires Scanned(spec, host, components, cur, curBegin, host.End())
    requires cur < 4 && curBegin < host.End()
    ensures LooksLikeIPv4(host.Of(spec))
    ensures NamesParts(spec, components[cur := Component(curBegin, host.End() - curBegin)], cur + 1, host.Of(spec))
  {
    hide SplitDots;
    var s := host.Of(spec);
    assert s[..host.End() - host.begin] == s;
    assert Parts(s) == SplitDots(s);
  }

  /** A text that ends in a dot: the finished pieces are all the parts. */
  lemma ScanFinalDot(spec: string, host: Component, components: seq<Component>, cur: int)
    requires Scanned(spec, host, components, cur, host.End(), host.End())
    ensures LooksLikeIPv4(host.Of(spec))
    ensures NamesParts(spec, components, cur, host.Of(spec))
    ensures cur < 4 ==> NamesParts(spec, components[cur := Component(host.End(), 0)], cur + 1, host.Of(spec))
  {
    hide SplitDots;
    var s := host.Of(spec);
    assert s[..host.End() - host.begin] == s;
    assert Parts(s) == SplitDots(s)[..cur];
  }

  /** Marks the unused components as absent. */
  method FillUnused(components: array<Component>, n: nat, ghost spec: string, ghost text: string)
    requires components.Length == 4 && NamesParts(spec, components[..], n, text)
    modifies components
    ensures NamesParts(spec, components[..], 4, text)
  {
    for cur := n to 4
      invariant NamesParts(spec, components[..], cur, text)
    {
      ghost var before := components[..];
      components[cur] := NO_COMPONENT;
      assert forall j :: 0 <= j < cur ==> components[..][j] == before[j];
    }
  }

  lemma ScanBegin(spec: string, host: Component, components: seq<Component>)
    requires host.Within(|spec|) && host.IsNonempty() && |components| == 4
    ensures Scanned(spec, host, components, 0, host.begin, host.begin)
  {
    assert host.Of(spec)[..0] == "";
  }

  lemma ScanBounds(spec: string, host: Component, components: seq<Component>, cur: int, curBegin: int, i: int)
    requires Scanned(spec, host, components, cur, curBegin, i)
    ensures 0 <= host.begin <= curBegin <= i <= host.End() <= |spec| && 0 <= cur <= 4
    ensures cur == 0 ==> curBegin < host.End()
  {}

  lemma ScanSpoiled(spec: string, host: Component, components: seq<Component>, cur: int, curBegin: int, i: int)
    requires Scanned(spec, host, components, cur, curBegin, i) && i < host.End()
    requires !IsIPv4Char(spec[i]) || (spec[i] == '.' && (curBegin == i || (cur == 3 && i + 1 < host.End())))
    ensures !LooksLikeIPv4(host.Of(spec))
  {
    var s, k := host.Of(spec), i - host.begin;
    assert s[k] == spec[i];
    if IsIPv4Char(spec[i]) {
      if curBegin == i { EmptyPieceSpoils(s, k); } else { FifthPieceSpoils(s, k); }
    }
  }

  lemma EmptyHost()
    ensures !LooksLikeIPv4("")
  {
    assert Parts("")[0] == "";
  }

  /** Splits the host at its dots into at most four components. */
  method FindIPv4Components(spec: string, host: Component, components: array<Component>) returns (ok: bool)
    requires host.Within(|spec|) && components.Length == 4
    modifies components
    ensures ok <==> LooksLikeIPv4(host.Of(spec))
    ensures ok ==> NamesParts(spec, components[..], 4, host.Of(spec))
  {
    hide LooksLikeIPv4, NamesParts, Scanned;
    if !host.IsNonempty() {
      EmptyHost();
      return false;
    }
    var cur := 0;
    var curBegin := host.begin;
    var end := host.End();
    var i := host.begin;
    ScanBegin(spec, host, components[..]);
    while true
      invariant cur < 4 && Scanned(spec, host, components[..], cur, curBegin, i)
      decreases end - i
    {
      ghost var before := components[..];
      ScanBounds(spec, host, before, cur, curBegin, i);
      if i >= end || spec[i] == '.' {
        // Found the end of the current component.
        var componentLen := i - curBegin;
        components[cur] := Component(curBegin, componentLen);
        assert components[..] == before[cur := Component(curBegin, componentLen)];
        if componentLen == 0 && (i < end || cur == 0) {
          ScanSpoiled(spec, host, before, cur, curBegin, i);
          return false;
        }
        if i >= end {
          if componentLen > 0 {
            ScanLastPart(spec, host, before, cur, curBegin);
          } else {
            ScanFinalDot(spec, host, before, cur);
          }
          cur := cur + 1;
          break;
        }
        if cur == 3 && i + 1 < end {
          ScanSpoiled(spec, host, before, cur, curBegin, i);
          return false;
        }
        ScanDot(spec, host, before, cur, curBegin, i);
        cur, curBegin := cur + 1, i + 1;
        if cur == 4 {
          ScanFinalDot(spec, host, components[..], cur);
          break;
        }
      } else if spec[i] as int >= 0x80 || !IsIPv4Char(spec[i]) {
        ScanSpoiled(spec, host, before, cur, curBegin, i);
        return false;
      } else {
        ScanCharacter(spec, host, before, cur, curBegin, i);
      }
      i := i + 1;
    }
    FillUnused(components, cur, spec, host.Of(spec));
    return true;
  }

  /**
   * Reads every existing component. A part that is not a number ends the reading;
   * a number too large for 32 bits is only remembered.
   */
  method ReadComponents(spec: string, components: seq<Component>, ghost text: string, values: array<nat>)
    returns (numeric: bool, existing: nat, broken: bool)
    requires |components| == values.Length == 4 && NamesParts(spec, components, 4, text)
    modifies values
    ensures numeric <==> AllNumeric(Parts(text))
    ensures numeric ==> existing == |Parts(text)|
    ensures numeric ==> (broken <==> exists j :: 0 <= j < |Parts(text)| && PartValue(Parts(text)[j]) > MAX_UINT32)
    ensures numeric && !broken ==> values[..existing] == Values(Parts(text))
  {
    hide IsNumeric, PartValue, Parts;
    existing, broken := 0, false;
    ghost var ps := Parts(text);
    for i := 0 to 4
      invariant existing == if i < |ps| then i else |ps|
      invariant forall j :: 0 <= j < existing ==> IsNumeric(ps[j])
      invariant broken <==> exists j :: 0 <= j < existing && PartValue(ps[j]) > MAX_UINT32
      invariant !broken ==> forall j :: 0 <= j < existing ==> values[j] == PartValue(ps[j])
    {
      if components[i].len <= 0 {
        continue;
      }
      assert Names(spec, components[i], ps[i]);
      var family, number := IPv4ComponentToNumber(spec, components[i]);
      values[existing] := number;
      if family == Broken {
        broken := true;
      } else if family != IPv4 {
        return false, existing, broken;
      }
      existing := existing + 1;
    }
    numeric := true;
  }

  lemma TooLargeDoesNotFit(vs: seq<nat>, j: nat)
    requires 1 <= |vs| <= 4 && j < |vs| && vs[j] > MAX_UINT32
    ensures !Fits(vs)
  {
    PowMono(256, 5 - |vs|, 4);
    assert Pow(256, 4) == 0x1_0000_0000;
  }

  /** Stores the low bytes of the last value, last byte first; reports whether nothing was left over. */
  method FillLast(value: nat, k: nat, address: array<Byte>, at: nat) returns (fits: bool)
    requires at + k <= address.Length
    modifies address
    ensures fits <==> value < Pow(256, k)
    ensures address[at..at + k] == ToBytes(value, k)
    ensures address[..at] == old(address[..at]) && address[at + k..] == old(address[at + k..])
  {
    var last: nat := value;
    var i := k;
    while i > 0
      invariant 0 <= i <= k
      invariant ToBytes(value, k) == ToBytes(last, i) + address[at + i..at + k]
      invariant value < Pow(256, k) <==> last < Pow(256, i)
      invariant address[..at] == old(address[..at]) && address[at + k..] == old(address[at + k..])
    {
      i := i - 1;
      ghost var tail := address[at + i + 1..at + k];
      address[at + i] := last % 256;
      assert address[at + i..at + k] == [last % 256] + tail;
      last := last / 256;
    }
    fits := last == 0;
  }

  /** Fills the four address bytes from the values of the parts. */
  method FillAddress(values: seq<nat>, address: array<Byte>, at: nat) returns (fits: bool)
    requires 1 <= |values| <= 4 && at + 4 <= address.Length
    modifies address
    ensures fits <==> Fits(values)
    ensures fits ==> address[at..at + 4] == AddressBytes(values)
    ensures address[..at] == old(address[..at]) && address[at + 4..] == old(address[at + 4..])
  {
    var n := |values|;
    for i := 0 to n - 1
      invariant forall j :: 0 <= j < i ==> values[j] <= 255 && address[at + j] == values[j]
      invariant address[..at] == old(address[..at]) && address[at + 4..] == old(address[at + 4..])
    {
      if values[i] > 255 {
        return false;
      }
      address[at + i] := values[i];
    }
    ghost var lead := address[..at + n - 1];
    fits := FillLast(values[n - 1], 5 - n, address, at + n - 1);
    assert address[..at] == lead[..at] == old(address[..at]);
    if fits {
      assert address[at..at + n - 1] == lead[at..] == LeadingBytes(values[..n - 1]);
      assert address[at..at + 4] == address[at..at + n - 1] + address[at + n - 1..at + 4];
    }
  }

  /**
   * Classifies the host and, for an IPv4 address, stores its four bytes at `at` and
   * reports how many parts it had. Nothing outside the four bytes is touched.
   */
  method IPv4AddressToNumber(spec: string, host: Component, address: array<Byte>, at: nat)
    returns (family: Family, numComponents: nat)
    requires host.Within(|spec|) && at + 4 <= address.Length
    modifies address
    ensures family == Verdict(host.Of(spec))
    ensures family == IPv4 ==> numComponents == |Parts(host.Of(spec))| <= 4
    ensures family == IPv4 ==> address[at..at + 4] == AddressBytes(Values(Parts(host.Of(spec))))
    ensures address[..at] == old(address[..at]) && address[at + 4..] == old(address[at + 4..])
  {
    hide LooksLikeIPv4, AllNumeric, Parts, Fits, AddressBytes;
    ghost var text := host.Of(spec);
    numComponents := 0;
    var components := new Component[4](_ => NO_COMPONENT);
    var found := FindIPv4Components(spec, host, components);
    if !found {
      return Neutral, 0;
    }
    var values := new nat[4](_ => 0);
    var numeric, existing, broken := ReadComponents(spec, components[..], text, values);
    if !numeric {
      return Neutral, 0;
    }
    if broken {
      ghost var j :| 0 <= j < |Parts(text)| && PartValue(Parts(text)[j]) > MAX_UINT32;
      TooLargeDoesNotFit(Values(Parts(text)), j);
      return Broken, 0;
    }
    var fits := FillAddress(values[..existing], address, at);
    if !fits {
      return Broken, 0;
    }
    return IPv4, existing;
  }
}
