/** Dotted quads, netmasks and subnets (lib/communication/ipv4address.cpp). */
module Ipv4 {
  import opened Options
  import opened Decimals
  import opened Splitting
  import opened Bits
  import opened Words

  /** The bytes of an address, the most significant first. */
  function Bytes(v: uint32): (b: seq<nat>)
    ensures |b| == 4 && forall i :: 0 <= i < 4 ==> b[i] < 256
  {
    [v / 0x100 / 0x100 / 0x100, v / 0x100 / 0x100 % 0x100, v / 0x100 % 0x100, v % 0x100]
  }

  predicate IsBytes(b: seq<nat>) { |b| == 4 && forall i :: 0 <= i < 4 ==> b[i] < 256 }

  function FromBytes(b: seq<nat>): uint32
    requires IsBytes(b)
  {
    ((b[0] * 0x100 + b[1]) * 0x100 + b[2]) * 0x100 + b[3]
  }

  lemma BytesRoundTrip(v: uint32)
    ensures FromBytes(Bytes(v)) == v
  {
  }

  lemma LowByte(high: nat, low: nat)
    requires low < 0x100
    ensures (high * 0x100 + low) / 0x100 == high && (high * 0x100 + low) % 0x100 == low
  {
  }

  lemma FromBytesRoundTrip(b: seq<nat>)
    requires IsBytes(b)
    ensures Bytes(FromBytes(b)) == b
  {
    LowByte(b[0], b[1]);
    LowByte(b[0] * 0x100 + b[1], b[2]);
    LowByte((b[0] * 0x100 + b[1]) * 0x100 + b[2], b[3]);
  }

  function Decimals4(b: seq<nat>): (tokens: seq<string>)
    requires |b| == 4
    ensures |tokens| == 4
  {
    [Decimal(b[0]), Decimal(b[1]), Decimal(b[2]), Decimal(b[3])]
  }

  /** What inet_ntoa and inet_ntop print. */
  function Quad(v: uint32): string { Join(Decimals4(Bytes(v)), ".") }

  /** The text of an address: its four bytes in decimal, the most significant first, with dots between them. */
  lemma QuadText(a: nat, b: nat, c: nat, d: nat)
    requires a < 256 && b < 256 && c < 256 && d < 256
    ensures Quad(a * 0x100_0000 + b * 0x1_0000 + c * 0x100 + d) ==
            Decimal(a) + "." + Decimal(b) + "." + Decimal(c) + "." + Decimal(d)
  {
    hide Decimal, Join, Bytes;
    BytesAre(a, b, c, d);
    var t := Decimals4([a, b, c, d]);
    JoinFour(t);
    Dotted(t[0], t[1], t[2], t[3]);
  }

  lemma BytesAre(a: nat, b: nat, c: nat, d: nat)
    requires a < 256 && b < 256 && c < 256 && d < 256
    ensures Bytes(a * 0x100_0000 + b * 0x1_0000 + c * 0x100 + d) == [a, b, c, d]
  {
    hide Bytes;
    FromBytesRoundTrip([a, b, c, d]);
    assert FromBytes([a, b, c, d]) == a * 0x100_0000 + b * 0x1_0000 + c * 0x100 + d;
  }

  lemma Dotted(a: string, b: string, c: string, d: string)
    ensures a + "." + (b + "." + (c + "." + d)) == a + "." + b + "." + c + "." + d
  {
  }

  lemma QuadTokens(b: seq<nat>)
    requires IsBytes(b)
    ensures Split(Join(Decimals4(b), "."), ".") == Decimals4(b)
  {
    hide Join, Split, Decimal;
    var tokens := Decimals4(b);
    forall i | 0 <= i < 4 ensures '.' !in tokens[i] {
      assert tokens[i] == Decimal(b[i]);
      DecimalRoundTrip(b[i]);
    }
    SplitInvertsJoin(tokens, '.');
  }

  /** One part as inet_pton takes it: digits, no leading zero, at most 255. */
  function ParseByte(part: string): Option<nat> {
    if Plain(part) && Value(part) <= 255 then Some(Value(part)) else None
  }

  /** inet_pton for AF_INET. */
  function ParseQuad(text: string): Option<uint32> {
    var parts := Split(text, ".");
    if |parts| == 4 && forall i :: 0 <= i < 4 ==> ParseByte(parts[i]).Some?
    then Some(FromBytes(seq(4, i requires 0 <= i < 4 => ParseByte(parts[i]).value)))
    else None
  }

  /** Exactly the printed texts parse, each to its address. */
  lemma ParseIff(text: string, v: uint32)
    ensures ParseQuad(text) == Some(v) <==> text == Quad(v)
  {
    hide Join, Split, Decimal, Value, Plain;
    var parts := Split(text, ".");
    if text == Quad(v) {
      QuadTokens(Bytes(v));
      forall i | 0 <= i < 4 ensures ParseByte(parts[i]) == Some(Bytes(v)[i]) {
        assert parts[i] == Decimal(Bytes(v)[i]);
        DecimalRoundTrip(Bytes(v)[i]);
      }
      assert seq(4, i requires 0 <= i < 4 => ParseByte(parts[i]).value) == Bytes(v);
      BytesRoundTrip(v);
    }
    if ParseQuad(text) == Some(v) {
      var b := seq(4, i requires 0 <= i < 4 => ParseByte(parts[i]).value);
      FromBytesRoundTrip(b);
      forall i | 0 <= i < 4 ensures parts[i] == Decimal(b[i]) {
        ValueRoundTrip(parts[i]);
      }
      assert parts == Decimals4(b);
      JoinSplit(text, ".");
    }
  }

  lemma QuadInjective(v: uint32, w: uint32)
    ensures Quad(v) == Quad(w) ==> v == w
  {
    ParseIff(Quad(v), v);
    ParseIff(Quad(v), w);
  }

  /** A text, or an exception of std::stoul that goes through to the caller. */
  datatype Attempt = Text(text: string) | InvalidArgument | OutOfRange

  /** Storing the 64-bit value in an unsigned int keeps the low 32 bits. */
  function Stored(part: string): int {
    match ReadUnsigned(part)
    case Read(value) => value % TWO_32
    case _ => -1
  }

  predicate ReadsByte(part: string) { 0 <= Stored(part) <= 255 }

  /** What the first fault in a pair of parts makes of the whole call. */
  function Fault(address: string, netmask: string): Option<Attempt> {
    match (ReadUnsigned(address), ReadUnsigned(netmask))
    case (Invalid, _) => Some(InvalidArgument)
    case (OutOfRange, _) => Some(Attempt.OutOfRange)
    case (_, Invalid) => Some(InvalidArgument)
    case (_, OutOfRange) => Some(Attempt.OutOfRange)
    case _ => if ReadsByte(address) && ReadsByte(netmask) then None else Some(Text(""))
  }

  function FirstFault(address: seq<string>, netmask: seq<string>): Option<Attempt>
    requires |address| == |netmask|
  {
    if address == [] then None
    else if Fault(address[0], netmask[0]).Some? then Fault(address[0], netmask[0])
    else FirstFault(address[1..], netmask[1..])
  }

  /** Four parts that std::stoul reads and whose stored values are bytes, as one number. More texts than inet_pton
      takes: white space, signs, leading zeros, anything behind the digits, and values that wrap to a byte. */
  function ReadQuad(text: string): Option<uint32> {
    var parts := Split(text, ".");
    if |parts| == 4 && forall i :: 0 <= i < 4 ==> ReadsByte(parts[i])
    then Some(FromBytes(seq(4, i requires 0 <= i < 4 => Stored(parts[i]))))
    else None
  }

  /** What getSubnet promises: the printed bitwise and of the two numbers; otherwise the first fault decides. */
  function SubnetOf(address: string, netmask: string): Attempt {
    var a, m := Split(address, "."), Split(netmask, ".");
    if |a| != 4 || |m| != 4 then Text("")
    else
      match FirstFault(a, m)
      case Some(fault) => fault
      case None => FaultFree(a, m); Text(Quad(Masked(ReadQuad(address).value, ReadQuad(netmask).value)))
  }

  function Masked(v: uint32, w: uint32): uint32 {
    AndBound(v, w); And(v, w)
  }

  lemma {:induction false} FaultFree(a: seq<string>, m: seq<string>)
    requires |a| == |m|
    ensures FirstFault(a, m).None? <==> forall i :: 0 <= i < |a| ==> ReadsByte(a[i]) && ReadsByte(m[i])
    decreases |a|
  {
    if a != [] {
      FaultFree(a[1..], m[1..]);
      FaultIff(a[0], m[0]);
      assert forall i :: 1 <= i < |a| ==> a[i] == a[1..][i - 1] && m[i] == m[1..][i - 1];
    }
  }

  lemma FaultIff(address: string, netmask: string)
    ensures Fault(address, netmask).None? <==> ReadsByte(address) && ReadsByte(netmask)
  {
    hide ReadUnsigned;
  }

  /** The first pair of parts that does not read as bytes decides: an exception of the address part, else one of the
      netmask part, else no text. */
  lemma {:induction false} FirstFaultDecides(address: string, netmask: string, k: nat)
    requires |Split(address, ".")| == 4 == |Split(netmask, ".")| && k < 4
    requires forall i :: 0 <= i < k ==> ReadsByte(Split(address, ".")[i]) && ReadsByte(Split(netmask, ".")[i])
    requires !(ReadsByte(Split(address, ".")[k]) && ReadsByte(Split(netmask, ".")[k]))
    ensures var a, m := ReadUnsigned(Split(address, ".")[k]), ReadUnsigned(Split(netmask, ".")[k]);
            SubnetOf(address, netmask) ==
            if a == Invalid then InvalidArgument
            else if a == Stoul.OutOfRange then Attempt.OutOfRange
            else if m == Invalid then InvalidArgument
            else if m == Stoul.OutOfRange then Attempt.OutOfRange
            else Text("")
  {
    hide Split, ReadUnsigned, ReadsByte, FirstFault;
    var a, m := Split(address, "."), Split(netmask, ".");
    FaultFree(a, m);
    FirstFaultAt(a, m, k);
    FaultIff(a[k], m[k]);
  }

  lemma {:induction false} FirstFaultAt(a: seq<string>, m: seq<string>, k: nat)
    requires |a| == |m| && k < |a|
    requires forall i :: 0 <= i < k ==> ReadsByte(a[i]) && ReadsByte(m[i])
    requires !(ReadsByte(a[k]) && ReadsByte(m[k]))
    ensures FirstFault(a, m) == Fault(a[k], m[k])
    decreases k
  {
    hide Fault, ReadsByte;
    FaultIff(a[0], m[0]);
    if k > 0 {
      FirstFaultAt(a[1..], m[1..], k - 1);
    } else {
      FaultIff(a[k], m[k]);
    }
  }

  /** A wrong number of parts gives no text. */
  lemma WrongPartsGiveNoText(address: string, netmask: string)
    ensures |Split(address, ".")| != 4 || |Split(netmask, ".")| != 4 ==> SubnetOf(address, netmask) == Text("")
  {
  }

  /** The bytes are masked one by one. */
  lemma MaskedBytes(v: seq<nat>, w: seq<nat>)
    requires IsBytes(v) && IsBytes(w)
    ensures var b := [And(v[0], w[0]), And(v[1], w[1]), And(v[2], w[2]), And(v[3], w[3])];
            IsBytes(b) && FromBytes(b) == Masked(FromBytes(v), FromBytes(w))
  {
    hide And, Pow2;
    Pow2Of32();
    AndBound(v[0], w[0]);
    AndBound(v[1], w[1]);
    AndBound(v[2], w[2]);
    AndBound(v[3], w[3]);
    AndSplit(v[0], v[1], w[0], w[1], 8);
    AndSplit(v[0] * 0x100 + v[1], v[2], w[0] * 0x100 + w[1], w[2], 8);
    AndSplit((v[0] * 0x100 + v[1]) * 0x100 + v[2], v[3], (w[0] * 0x100 + w[1]) * 0x100 + w[2], w[3], 8);
  }

  /** A printed address is read back. */
  lemma ReadsQuad(v: uint32)
    ensures ReadQuad(Quad(v)) == Some(v)
  {
    hide Join, Split, Decimal, ReadUnsigned;
    QuadTokens(Bytes(v));
    var parts := Split(Quad(v), ".");
    forall i | 0 <= i < 4 ensures Stored(parts[i]) == Bytes(v)[i] {
      assert parts[i] == Decimal(Bytes(v)[i]);
      ReadDecimal(Bytes(v)[i]);
    }
    assert seq(4, i requires 0 <= i < 4 => Stored(parts[i])) == Bytes(v);
    BytesRoundTrip(v);
  }

  /** A non-empty subnet is the printed bitwise and, and there is one exactly for texts whose parts read as bytes. */
  lemma SubnetIff(address: string, netmask: string, subnet: string)
    ensures SubnetOf(address, netmask) == Text(subnet) && subnet != "" <==>
            && ReadQuad(address).Some? && ReadQuad(netmask).Some?
            && subnet == Quad(Masked(ReadQuad(address).value, ReadQuad(netmask).value))
  {
    hide Split, Quad, ReadsByte, FirstFault, Masked;
    var a, m := Split(address, "."), Split(netmask, ".");
    if |a| == 4 == |m| {
      FaultFree(a, m);
      FaultsAreEmpty(a, m);
    }
    if ReadQuad(address).Some? && ReadQuad(netmask).Some? {
      QuadNotEmpty(Masked(ReadQuad(address).value, ReadQuad(netmask).value));
    }
  }

  lemma FaultsAreEmpty(a: seq<string>, m: seq<string>)
    requires |a| == |m|
    ensures FirstFault(a, m).Some? && FirstFault(a, m).value.Text? ==> FirstFault(a, m).value.text == ""
  {
  }

  lemma QuadNotEmpty(v: uint32)
    ensures Quad(v) != ""
  {
    hide Join, Split;
    QuadTokens(Bytes(v));
    EmptySplit();
  }

  lemma EmptySplit()
    ensures Split("", ".") == [""]
  {
  }

  /** A value too large by a multiple of 2^32 is taken for a byte. */
  lemma WrapsToByte(byte: nat, times: nat)
    requires byte <= 255 && times < TWO_32
    ensures ReadsByte(Decimal(times * TWO_32 + byte)) && Stored(Decimal(times * TWO_32 + byte)) == byte
  {
    hide ReadUnsigned, Decimal;
    ReadDecimal(times * TWO_32 + byte);
  }

  /** The subnet of a subnet is itself. */
  lemma SubnetIdempotent(address: string, netmask: string, subnet: string)
    requires SubnetOf(address, netmask) == Text(subnet) && subnet != ""
    ensures SubnetOf(subnet, netmask) == Text(subnet)
  {
    hide SubnetOf, ReadQuad, Quad, And;
    SubnetIff(address, netmask, subnet);
    var v, w := ReadQuad(address).value, ReadQuad(netmask).value;
    ReadsQuad(Masked(v, w));
    AndIdempotent(v, w);
    SubnetIff(subnet, netmask, subnet);
  }

  /** The contiguous mask with the given number of ones in a word of the given width. */
  function MaskValue(width: nat, prefix: nat): (m: nat)
    requires prefix <= width
    ensures m < Pow2(width)
  {
    PowSum(prefix, width - prefix);
    PowMono(width - prefix, width);
    Pow2(width) - Pow2(width - prefix)
  }

  lemma {:induction false} PowMono(a: nat, b: nat)
    requires a <= b
    ensures Pow2(a) <= Pow2(b)
    decreases b
  {
    if a < b {
      PowMono(a, b - 1);
    }
  }

  function Mask32(prefix: nat): uint32
    requires prefix <= 32
  {
    Pow2Of32();
    MaskValue(32, prefix)
  }

  /** Under a contiguous mask two addresses lie in the same subnet exactly when their upper bits agree. */
  lemma SameSubnetIff(address: string, other: string, netmask: string, prefix: nat)
    requires prefix <= 32 && ReadQuad(netmask) == Some(Mask32(prefix))
    requires ReadQuad(address).Some? && ReadQuad(other).Some?
    ensures SubnetOf(address, netmask) == SubnetOf(other, netmask) <==>
            ReadQuad(address).value / Pow2(32 - prefix) == ReadQuad(other).value / Pow2(32 - prefix)
  {
    hide SubnetOf, ReadQuad, Quad, And, Pow2;
    var v, w, m := ReadQuad(address).value, ReadQuad(other).value, ReadQuad(netmask).value;
    SubnetIff(address, netmask, Quad(Masked(v, m)));
    SubnetIff(other, netmask, Quad(Masked(w, m)));
    QuadInjective(Masked(v, m), Masked(w, m));
    Pow2Of32();
    AndPrefixMask(v, 32, prefix);
    AndPrefixMask(w, 32, prefix);
    SameMultiple(v / Pow2(32 - prefix), w / Pow2(32 - prefix), Pow2(32 - prefix));
  }

  lemma SameMultiple(a: nat, b: nat, n: nat)
    requires n > 0
    ensures a * n == b * n <==> a == b
  {
    if a < b {
      assert b * n == a * n + (b - a) * n;
    } else if b < a {
      assert a * n == b * n + (a - b) * n;
    }
  }

  /** The loop over the parts. */
  method GetSubnet(address: string, netmask: string) returns (r: Attempt)
    ensures r == SubnetOf(address, netmask)
  {
    hide Split, ReadUnsigned, Decimal, And, Join, Stored, ReadsByte;
    var subnet := "";
    var addressParts := SplitAtChar(address, '.');
    var netmaskParts := SplitAtChar(netmask, '.');
    if |addressParts| != 4 || |netmaskParts| != 4 {
      return Text("");
    }
    ghost var bytes: seq<nat>, tokens: seq<string> := [], [];
    for index := 0 to 4
      invariant |bytes| == index == |tokens| && subnet == (if index == 0 then "" else Join(tokens, ".") + ".")
      invariant forall i :: 0 <= i < index ==> tokens[i] == Decimal(bytes[i])
      invariant FirstFault(addressParts, netmaskParts) == FirstFault(addressParts[index..], netmaskParts[index..])
      invariant forall i :: 0 <= i < index ==> ReadsByte(addressParts[i]) && ReadsByte(netmaskParts[i])
      invariant forall i :: 0 <= i < index ==> 0 <= Stored(addressParts[i]) && 0 <= Stored(netmaskParts[i])
      invariant forall i :: 0 <= i < index ==> bytes[i] == And(Stored(addressParts[i]), Stored(netmaskParts[i]))
    {
      FaultIff(addressParts[index], netmaskParts[index]);
      var a := ReadUnsigned(addressParts[index]);
      if a.Invalid? { return InvalidArgument; }
      if a.OutOfRange? { return Attempt.OutOfRange; }
      var m := ReadUnsigned(netmaskParts[index]);
      if m.Invalid? { return InvalidArgument; }
      if m.OutOfRange? { return Attempt.OutOfRange; }
      var addressByte := a.value % TWO_32;
      var netmaskByte := m.value % TWO_32;
      StoredIs(addressParts[index]);
      StoredIs(netmaskParts[index]);
      if addressByte > 255 || netmaskByte > 255 {
        return Text("");
      }
      var subnetByte := And(addressByte, netmaskByte);
      subnet := subnet + Decimal(subnetByte) + ".";
      JoinLast(tokens, Decimal(subnetByte), ".");
      bytes, tokens := bytes + [subnetByte], tokens + [Decimal(subnetByte)];
    }
    assert tokens == Decimals4(bytes);
    Finished(address, netmask, addressParts, netmaskParts, bytes);
    subnet := subnet[..|subnet| - 1];
    r := Text(subnet);
  }

  lemma StoredIs(part: string)
    ensures ReadUnsigned(part).Read? ==> Stored(part) == ReadUnsigned(part).value % TWO_32
    ensures ReadsByte(part) <==> 0 <= Stored(part) <= 255
  {
    hide ReadUnsigned;
  }

  /** Without a fault the bytes are those of the masked number. */
  lemma Finished(address: string, netmask: string, a: seq<string>, m: seq<string>, bytes: seq<nat>)
    requires a == Split(address, ".") && m == Split(netmask, ".") && |a| == 4 == |m| == |bytes|
    requires forall i :: 0 <= i < 4 ==> ReadsByte(a[i]) && ReadsByte(m[i])
    requires forall i :: 0 <= i < 4 ==> 0 <= Stored(a[i]) && 0 <= Stored(m[i])
    requires forall i :: 0 <= i < 4 ==> bytes[i] == And(Stored(a[i]), Stored(m[i]))
    ensures SubnetOf(address, netmask) == Text(Join(Decimals4(bytes), "."))
  {
    hide Split, ReadUnsigned, Decimal, And, Join, Stored, FirstFault;
    FaultFree(a, m);
    var v := seq(4, i requires 0 <= i < 4 => Stored(a[i]));
    var w := seq(4, i requires 0 <= i < 4 => Stored(m[i]));
    MaskedBytes(v, w);
    assert bytes == [And(v[0], w[0]), And(v[1], w[1]), And(v[2], w[2]), And(v[3], w[3])];
    FromBytesRoundTrip(bytes);
  }

  /** Bit j of a word, counted from the top. */
  predicate TopBit(value: nat, width: nat, j: nat)
    requires j < width
  {
    value / Pow2(width - 1 - j) % 2 == 1
  }

  /** A contiguous mask has ones above its prefix and zeros below. */
  lemma MaskBit(width: nat, prefix: nat, j: nat)
    requires prefix <= width && j < width
    ensures TopBit(MaskValue(width, prefix), width, j) <==> j < prefix
  {
    hide Pow2, MaskValue;
    if j < prefix {
      MaskOnes(width, prefix, j);
      DoubleLess(Pow2(j));
    } else {
      MaskZeros(width, prefix, j);
      DoubleLess((Pow2(prefix) - 1) * Pow2(j - prefix));
    }
  }

  lemma DoubleLess(n: nat)
    ensures 2 * n % 2 == 0 && (n > 0 ==> (2 * n - 1) % 2 == 1)
  {
  }

  lemma MaskOnes(width: nat, prefix: nat, j: nat)
    requires j < prefix <= width
    ensures MaskValue(width, prefix) / Pow2(width - 1 - j) == 2 * Pow2(j) - 1
  {
    hide Pow2;
    var unit, low := Pow2(width - 1 - j), Pow2(width - prefix);
    PowSum(j + 1, width - 1 - j);
    TwiceLess(j);
    PowMono(width - prefix, width - 1 - j);
    Distribute(Pow2(j), unit);
    Quotient(MaskValue(width, prefix), 2 * Pow2(j) - 1, unit, unit - low);
  }

  lemma MaskZeros(width: nat, prefix: nat, j: nat)
    requires prefix <= j < width
    ensures MaskValue(width, prefix) / Pow2(width - 1 - j) == 2 * ((Pow2(prefix) - 1) * Pow2(j - prefix))
  {
    hide Pow2;
    var unit, high, gap := Pow2(width - 1 - j), Pow2(prefix), Pow2(j - prefix);
    PowSum(prefix, width - prefix);
    PowSum(j - prefix, width - j);
    TwiceLess(width - 1 - j);
    Distribute(high, gap * (2 * unit));
    Even(high - 1, gap, unit);
    Quotient(MaskValue(width, prefix), 2 * ((high - 1) * gap), unit, 0);
  }

  lemma TwiceLess(k: nat)
    ensures Pow2(k + 1) == 2 * Pow2(k)
  {
  }

  lemma Distribute(a: nat, unit: nat)
    ensures (a - 1) * unit == a * unit - unit && (2 * a - 1) * unit == 2 * a * unit - unit
  {
  }

  /** Testing one bit with a mask. */
  lemma {:induction false} TestBit(value: nat, k: nat)
    ensures And(value, Pow2(k)) != 0 <==> value / Pow2(k) % 2 == 1
    decreases k
  {
    hide Pow2, And;
    if k == 0 {
      PowZero();
      AndOdd(value);
    } else {
      TwiceLess(k - 1);
      AndEven(value, Pow2(k - 1));
      TestBit(value / 2, k - 1);
      HalfQuotient(value, Pow2(k - 1));
    }
  }

  lemma AndOdd(value: nat)
    ensures And(value, 1) == value % 2
  {
    if value > 0 { AndZero(value / 2); }
  }

  lemma AndEven(value: nat, m: nat)
    ensures And(value, 2 * m) == 2 * And(value / 2, m)
  {
    hide And;
    AndStep(value, 2 * m);
    assert 2 * m / 2 == m && 2 * m % 2 == 0;
  }

  lemma AndStep(a: nat, b: nat)
    ensures And(a, b) == (if a % 2 == 1 && b % 2 == 1 then 1 else 0) + 2 * And(a / 2, b / 2)
  {
  }

  /** The loop of getNetmaskFromPrefix, for a word of any width. */
  method MaskFromPrefix(width: nat, prefix: nat) returns (subnet: nat)
    requires prefix <= width
    ensures subnet == MaskValue(width, prefix)
  {
    hide Pow2, Or;
    subnet := 0;
    var left := prefix;
    ghost var ones := 0;
    PowZero();
    for count := 0 to width
      invariant ones == (if count < prefix then count else prefix) && left == prefix - ones
      invariant subnet == MaskValue(count, ones)
    {
      TwiceLess(count);
      TwiceLess(count - ones);
      subnet := 2 * subnet;
      if left != 0 {
        PowZero();
        OrDisjoint(subnet / 2, 1, 1);
        subnet := Or(subnet, 1);
        left := left - 1;
        ones := ones + 1;
      }
    }
  }

  lemma PowZero()
    ensures Pow2(0) == 1 && Pow2(1) == 2
  {
  }

  lemma TestTop(value: nat, width: nat, j: nat)
    requires j < width
    ensures And(value, Pow2(width - 1 - j)) != 0 <==> TopBit(value, width, j)
  {
    TestBit(value, width - 1 - j);
  }

  lemma HalfUnit(k: nat)
    ensures Pow2(k) / 2 == if k == 0 then 0 else Pow2(k - 1)
  {
  }

  /** A zero above a one. */
  lemma GapIsNoMask(width: nat, value: nat, zero: nat, one: nat)
    requires zero < one < width && !TopBit(value, width, zero) && TopBit(value, width, one)
    ensures forall p :: 0 <= p <= width ==> value != MaskValue(width, p)
  {
    hide MaskValue, TopBit;
    forall p | 0 <= p <= width ensures value != MaskValue(width, p) {
      MaskBit(width, p, zero);
      MaskBit(width, p, one);
    }
  }

  lemma HalfBit(value: nat, width: nat, j: nat)
    requires j + 1 < width
    ensures TopBit(value / 2, width - 1, j) <==> TopBit(value, width, j)
  {
    HalfQuotient(value, Pow2(width - 2 - j));
    TwiceLess(width - 2 - j);
  }

  lemma LastBit(value: nat, width: nat)
    requires width > 0
    ensures TopBit(value, width, width - 1) <==> value % 2 == 1
    ensures value < Pow2(width) ==> value / 2 < Pow2(width - 1)
  {
    PowZero();
  }

  lemma {:induction false} SameBits(width: nat, a: nat, b: nat)
    requires a < Pow2(width) && b < Pow2(width)
    requires forall j :: 0 <= j < width ==> (TopBit(a, width, j) <==> TopBit(b, width, j))
    ensures a == b
    decreases width
  {
    if width > 0 {
      hide TopBit, Pow2;
      var n, x, y := width - 1, a / 2, b / 2;
      forall j | 0 <= j < n ensures TopBit(x, n, j) <==> TopBit(y, n, j) {
        HalfBit(a, width, j);
        HalfBit(b, width, j);
      }
      LastBit(a, width);
      LastBit(b, width);
      SameBits(n, x, y);
    }
  }

  lemma OnesThenZeros(width: nat, value: nat, prefix: nat)
    requires prefix <= width && value < Pow2(width)
    requires forall j :: 0 <= j < width ==> (TopBit(value, width, j) <==> j < prefix)
    ensures value == MaskValue(width, prefix)
  {
    hide MaskValue, TopBit;
    forall j | 0 <= j < width ensures TopBit(value, width, j) <==> TopBit(MaskValue(width, prefix), width, j) {
      MaskBit(width, prefix, j);
    }
    SameBits(width, value, MaskValue(width, prefix));
  }

  /** The two loops of getPrefixFromNetmask, for a word of any width: the ones from the top, then the search for
      ones further down. */
  method PrefixFromMask(width: nat, value: nat) returns (r: int)
    requires width > 0 && value < Pow2(width)
    ensures r == -1 || (0 <= r <= width && value == MaskValue(width, r))
    ensures r == -1 ==> forall p :: 0 <= p <= width ==> value != MaskValue(width, p)
  {
    hide Pow2, And, MaskValue, TopBit;
    var prefix := 0;
    var mask := Pow2(width - 1);
    var more := true;
    while more
      invariant prefix <= width && mask == (if prefix < width then Pow2(width - 1 - prefix) else 0)
      invariant forall j :: 0 <= j < prefix ==> TopBit(value, width, j)
      invariant more ==> prefix < width
      invariant !more && prefix < width ==> !TopBit(value, width, prefix)
      decreases more, width - prefix
    {
      TestTop(value, width, prefix);
      if And(value, mask) != 0 {
        HalfUnit(width - 1 - prefix);
        mask := mask / 2;
        prefix := prefix + 1;
        more := mask != 0;
      } else {
        more := false;
      }
    }
    var pos := prefix + 1;
    while pos < width
      invariant prefix < pos && (prefix < width ==> pos <= width && mask == Pow2(width - pos))
      invariant forall j :: prefix <= j < pos && j < width ==> !TopBit(value, width, j)
    {
      HalfUnit(width - pos);
      mask := mask / 2;
      TestTop(value, width, pos);
      if And(value, mask) != 0 {
        GapIsNoMask(width, value, prefix, pos);
        return -1;
      }
      pos := pos + 1;
    }
    OnesThenZeros(width, value, prefix);
    return prefix;
  }

  /** getNetmaskFromPrefix: no text for an invalid prefix, else the printed mask. */
  method GetNetmaskFromPrefix(prefix: nat) returns (netmask: string)
    ensures netmask == NetmaskText(prefix)
  {
    if prefix > 32 {
      return "";
    }
    var subnet := MaskFromPrefix(32, prefix);
    Pow2Of32();
    netmask := Quad(subnet);
  }

  function NetmaskText(prefix: nat): string {
    if prefix > 32 then "" else Quad(Mask32(prefix))
  }

  /** The prefix of a contiguous mask, -1 for every other text. */
  ghost predicate IsPrefixOf(netmask: string, r: int) {
    if r == -1 then forall p :: 0 <= p <= 32 ==> ParseQuad(netmask) != Some(Mask32(p))
    else 0 <= r <= 32 && ParseQuad(netmask) == Some(Mask32(r))
  }

  /** getPrefixFromNetmask. A mask that does not parse could only go on if it were the one of all ones, which does. */
  method GetPrefixFromNetmask(netmask: string) returns (r: int)
    ensures IsPrefixOf(netmask, r)
  {
    hide Pow2, Quad;
    var inAddr := ParseQuad(netmask);
    AllOnesParse();
    if inAddr.None? && netmask != "255.255.255.255" {
      return -1;
    }
    Pow2Of32();
    r := PrefixFromMask(32, inAddr.value);
  }

  lemma JoinFour(d: seq<string>)
    requires |d| == 4
    ensures Join(d, ".") == d[0] + "." + (d[1] + "." + (d[2] + "." + d[3]))
  {
    assert d[2..][1..] == d[3..] && d[1..][1..] == d[2..];
    assert Join(d[3..], ".") == d[3];
    assert Join(d[2..], ".") == d[2] + "." + d[3];
    assert Join(d[1..], ".") == d[1] + "." + (d[2] + "." + d[3]);
  }

  lemma AllOnesParse()
    ensures ParseQuad("255.255.255.255") == Some(TWO_32 - 1)
  {
    hide Split, Join, ParseQuad;
    assert Decimal(25) == "25" && Decimal(255) == "255";
    assert Bytes(TWO_32 - 1) == [255, 255, 255, 255];
    JoinFour(["255", "255", "255", "255"]);
    ParseIff("255.255.255.255", TWO_32 - 1);
  }

  /** The prefix of a text is unique, so the two functions are inverse on all prefixes and all contiguous masks; no
      other text has a prefix. */
  lemma PrefixInverse(netmask: string, r: int)
    ensures IsPrefixOf(netmask, r) <==>
            if exists p :: 0 <= p <= 32 && netmask == NetmaskText(p) then 0 <= r <= 32 && netmask == NetmaskText(r)
            else r == -1
    ensures forall p, q :: 0 <= p <= 32 && 0 <= q <= 32 && NetmaskText(p) == NetmaskText(q) ==> p == q
  {
    hide ParseQuad, Quad, Mask32;
    forall p | 0 <= p <= 32 ensures ParseQuad(netmask) == Some(Mask32(p)) <==> netmask == NetmaskText(p) {
      ParseIff(netmask, Mask32(p));
    }
    forall p, q | 0 <= p <= 32 && 0 <= q <= 32 && NetmaskText(p) == NetmaskText(q) ensures p == q {
      QuadInjective(Mask32(p), Mask32(q));
      MasksDiffer(p, q);
    }
  }

  lemma MasksDiffer(p: nat, q: nat)
    requires p <= 32 && q <= 32 && Mask32(p) == Mask32(q)
    ensures p == q
  {
    hide MaskValue, TopBit;
    if p < q {
      MaskBit(32, p, p);
      MaskBit(32, q, p);
    } else if q < p {
      MaskBit(32, p, q);
      MaskBit(32, q, q);
    }
  }
}
