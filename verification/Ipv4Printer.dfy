/** Printing an IPv4 address, and reading it back. */
module Ipv4Printer {
  import opened UrlChars
  import opened Ipv4Spec
  import CanonOutput

  function ByteText(b: Byte): string { NumberText(b, Dec) }

  function IPv4Text(a: seq<Byte>): string
    requires |a| == 4
  {
    ByteText(a[0]) + "." + ByteText(a[1]) + "." + ByteText(a[2]) + "." + ByteText(a[3])
  }

  function TextUpTo(a: seq<Byte>, n: nat): string
    requires n <= |a| == 4
  {
    if n == 0 then "" else TextUpTo(a, n - 1) + ByteText(a[n - 1]) + (if n < 4 then "." else "")
  }

  method AppendIPv4Address(address: seq<Byte>, output: CanonOutput.Output)
    requires |address| == 4 && output.Valid()
    modifies output, output.buffer
    ensures output.Valid() && output.Contents() == CanonOutput.PushAll(old(output.Contents()), IPv4Text(address))
    ensures output.buffer == old(output.buffer) || fresh(output.buffer)
  {
    hide CanonOutput.PushAll, TextUpTo, ByteText;
    ghost var start := output.Contents();
    NothingYet(address, start);
    for i := 0 to 4
      invariant output.Valid() && output.Contents() == CanonOutput.PushAll(start, TextUpTo(address, i))
      invariant output.buffer == old(output.buffer) || fresh(output.buffer)
    {
      OneByteMore(address, i, start);
      var str := ByteText(address[i]);
      ThreeDigits(address[i]);
      output.PushText(str);
      if i != 3 {
        output.PushBack('.');
      }
    }
    TextUpToAll(address);
  }

  /** Sixteen characters are room enough for a byte. */
  lemma ThreeDigits(b: Byte)
    ensures |ByteText(b)| < 16
  {
    assert Pow(10, 3) == 1000;
    NumberTextLength(b, Dec, 3);
  }

  lemma NothingYet(a: seq<Byte>, o: CanonOutput.Content)
    requires |a| == 4
    ensures CanonOutput.PushAll(o, TextUpTo(a, 0)) == o
  {}

  lemma OneByteMore(a: seq<Byte>, i: nat, o: CanonOutput.Content)
    requires |a| == 4 && i < 4
    ensures var p := CanonOutput.PushAll(CanonOutput.PushAll(o, TextUpTo(a, i)), ByteText(a[i]));
      CanonOutput.PushAll(o, TextUpTo(a, i + 1)) == if i != 3 then CanonOutput.Push(p, '.') else p
  {
    hide ByteText;
    var before, str := TextUpTo(a, i), ByteText(a[i]);
    CanonOutput.PushAllAppend(o, before, str);
    if i != 3 {
      assert (before + str + ".")[..|before + str|] == before + str;
    } else {
      assert before + str + "" == before + str;
    }
  }

  lemma TextUpToAll(a: seq<Byte>)
    requires |a| == 4
    ensures TextUpTo(a, 4) == IPv4Text(a)
  {
    hide ByteText;
    assert TextUpTo(a, 1) == "" + ByteText(a[0]) + ".";
    assert TextUpTo(a, 2) == TextUpTo(a, 1) + ByteText(a[1]) + ".";
    assert TextUpTo(a, 3) == TextUpTo(a, 2) + ByteText(a[2]) + ".";
    assert TextUpTo(a, 4) == TextUpTo(a, 3) + ByteText(a[3]) + "";
  }

  /** The text is the four bytes in decimal, each as short as can be, with dots between them. */
  lemma IPv4TextExactly(a: seq<Byte>, s: string)
    requires |a| == 4
    ensures s == IPv4Text(a) <==>
      exists t0, t1, t2, t3 ::
        && s == t0 + "." + t1 + "." + t2 + "." + t3
        && IsByteText(t0, a[0]) && IsByteText(t1, a[1]) && IsByteText(t2, a[2]) && IsByteText(t3, a[3])
  {
    hide IsByteText, ByteText;
    var t0, t1, t2, t3 := ByteText(a[0]), ByteText(a[1]), ByteText(a[2]), ByteText(a[3]);
    ByteTextExactly(t0, a[0]); ByteTextExactly(t1, a[1]); ByteTextExactly(t2, a[2]); ByteTextExactly(t3, a[3]);
    forall u0, u1, u2, u3 | IsByteText(u0, a[0]) && IsByteText(u1, a[1]) && IsByteText(u2, a[2]) && IsByteText(u3, a[3])
      ensures u0 + "." + u1 + "." + u2 + "." + u3 == IPv4Text(a)
    {
      ByteTextExactly(u0, a[0]); ByteTextExactly(u1, a[1]); ByteTextExactly(u2, a[2]); ByteTextExactly(u3, a[3]);
    }
  }

  predicate IsByteText(t: string, b: Byte) { IsMinimal(t, Dec) && Value(t, Dec) == b }

  lemma ByteTextExactly(t: string, b: Byte)
    ensures t == ByteText(b) <==> IsByteText(t, b)
  {
    NumberTextExactly(t, b, Dec);
  }

  // ---- reading back -----------------------------------------------------------

  /** A decimal byte text is one numeric part with that byte as its value. */
  lemma ByteTextReads(b: Byte)
    ensures IsNumeric(ByteText(b)) && PartValue(ByteText(b)) == b && ByteText(b) != ""
    ensures forall i :: 0 <= i < |ByteText(b)| ==> ByteText(b)[i] != '.' && IsIPv4Char(ByteText(b)[i])
  {
    var t := ByteText(b);
    assert PartBase(t) == Dec && PartDigits(t) == t;
    assert forall i :: 0 <= i < |t| ==> IsCharOfBase(t[i], Dec);
  }

  lemma IPv4TextParts(a: seq<Byte>)
    requires |a| == 4
    ensures Parts(IPv4Text(a)) == [ByteText(a[0]), ByteText(a[1]), ByteText(a[2]), ByteText(a[3])]
    ensures LooksLikeIPv4(IPv4Text(a))
  {
    hide SplitDots, ByteText, IsIPv4Char;
    var t0, t1, t2, t3 := ByteText(a[0]), ByteText(a[1]), ByteText(a[2]), ByteText(a[3]);
    ByteTextReads(a[0]); ByteTextReads(a[1]); ByteTextReads(a[2]); ByteTextReads(a[3]);
    SplitOne(t0);
    SplitAfterDot(t0, t1);
    SplitAfterDot(t0 + "." + t1, t2);
    SplitAfterDot(t0 + "." + t1 + "." + t2, t3);
    DottedChars(t0, t1);
    DottedChars(t0 + "." + t1, t2);
    DottedChars(t0 + "." + t1 + "." + t2, t3);
  }

  lemma DottedChars(s: string, p: string)
    requires IPv4Chars(s) && IPv4Chars(p)
    ensures IPv4Chars(s + "." + p)
  {}

  lemma FourBytesFit(a: seq<Byte>, vs: seq<nat>)
    requires |a| == |vs| == 4 && forall i :: 0 <= i < 4 ==> vs[i] == a[i]
    ensures Fits(vs) && AddressBytes(vs) == a
  {
    assert Pow(256, 1) == 256;
    assert ToBytes(a[3], 1) == ToBytes(a[3] / 256, 0) + [a[3]];
    assert AddressBytes(vs) == LeadingBytes(vs[..3]) + [a[3]];
  }

  /** Every four bytes survive being printed and read again. */
  lemma IPv4RoundTrip(a: seq<Byte>)
    requires |a| == 4
    ensures Verdict(IPv4Text(a)) == IPv4
    ensures |Parts(IPv4Text(a))| == 4 && AddressBytes(Values(Parts(IPv4Text(a)))) == a
  {
    hide LooksLikeIPv4, Parts, IPv4Text, ByteText, IsNumeric, PartValue, Fits, AddressBytes;
    IPv4TextParts(a);
    ByteTextReads(a[0]); ByteTextReads(a[1]); ByteTextReads(a[2]); ByteTextReads(a[3]);
    FourBytesFit(a, Values(Parts(IPv4Text(a))));
  }
}
