/** The list of network adapters (lib/communication/linux/netadapterlist.cpp), and which addresses count as APIPA
    (lib/communication/ipv4address.cpp). */
module NetadapterLists {
  import opened Options
  import opened Bits
  import opened Words
  import opened Decimals
  import opened Splitting
  import opened Ipv4

  function CountChar(text: string, c: char): nat {
    if text == "" then 0 else (if text[0] == c then 1 else 0) + CountChar(text[1..], c)
  }

  /** isApipaAddress: three dots, a valid quad, and the text of the network in front. */
  predicate IsApipa(address: string) {
    CountChar(address, '.') == 3 && ParseQuad(address).Some? && "169.254" <= address
  }

  lemma {:induction false} CountParts(a: string, b: string, c: char)
    ensures CountChar(a + b, c) == CountChar(a, c) + CountChar(b, c)
    decreases |a|
  {
    if a == "" {
      assert a + b == b;
    } else {
      CountParts(a[1..], b, c);
      assert (a + b)[1..] == a[1..] + b;
    }
  }

  lemma {:induction false} CountFree(text: string, c: char)
    requires c !in text
    ensures CountChar(text, c) == 0
  {
    if text != "" {
      CountFree(text[1..], c);
    }
  }

  /** The parts of a printed quad, and its dots. */
  lemma QuadParts(v: uint32)
    ensures var d := Decimals4(Bytes(v));
            && Quad(v) == d[0] + "." + (d[1] + "." + (d[2] + "." + d[3]))
            && forall i :: 0 <= i < 4 ==>
                 '.' !in d[i] && AllDigits(d[i]) && 1 <= |d[i]| <= 3 && Value(d[i]) == Bytes(v)[i]
  {
    hide Decimal, Value, Join, Quad;
    var d := Decimals4(Bytes(v));
    QuadIs(v);
    JoinFour(d);
    forall i | 0 <= i < 4
      ensures '.' !in d[i] && AllDigits(d[i]) && 1 <= |d[i]| <= 3 && Value(d[i]) == Bytes(v)[i]
    {
      assert d[i] == Decimal(Bytes(v)[i]);
      DecimalRoundTrip(Bytes(v)[i]);
      Longer(d[i]);
    }
  }

  lemma QuadIs(v: uint32)
    ensures Quad(v) == Join(Decimals4(Bytes(v)), ".")
  {
  }

  lemma QuadDots(v: uint32)
    ensures CountChar(Quad(v), '.') == 3
  {
    hide Quad, Bytes, Decimals4;
    QuadParts(v);
    var d := Decimals4(Bytes(v));
    forall i | 0 <= i < 4 ensures CountChar(d[i], '.') == 0 {
      CountFree(d[i], '.');
    }
    CountParts(d[2] + ".", d[3], '.');
    CountParts(d[2], ".", '.');
    CountParts(d[1] + ".", d[2] + "." + d[3], '.');
    CountParts(d[1], ".", '.');
    CountParts(d[0] + ".", d[1] + "." + (d[2] + "." + d[3]), '.');
    CountParts(d[0], ".", '.');
    assert CountChar(".", '.') == 1;
  }

  /** A text is an APIPA address exactly when it is the printed form of an address in 169.254.0.0/16. */
  lemma ApipaIff(address: string)
    ensures IsApipa(address) <==> ParseQuad(address).Some? && ParseQuad(address).value / 0x1_0000 == 0xA9FE
  {
    hide ParseQuad, CountChar, Quad;
    if ParseQuad(address).Some? {
      var v := ParseQuad(address).value;
      ParseIff(address, v);
      QuadDots(v);
      ApipaPrefix(v);
    }
  }

  lemma ApipaPrefix(v: uint32)
    ensures "169.254" <= Quad(v) <==> v / 0x1_0000 == 0xA9FE
  {
    hide Quad, Value;
    QuadParts(v);
    var d, b := Decimals4(Bytes(v)), Bytes(v);
    assert v / 0x100 / 0x100 / 0x100 == v / 0x1_0000 / 0x100;
    assert v / 0x1_0000 == 0xA9FE <==> b[0] == 169 && b[1] == 254;
    TextOf(d[0], "169");
    TextOf(d[1], "254");
    PrefixParts(d[0], d[1], "." + (d[2] + "." + d[3]));
    Known();
  }

  lemma Known()
    ensures Value("169") == 169 && Value("254") == 254
    ensures Decimal(169) == "169" && Decimal(254) == "254"
  {
    assert "169"[..2] == "16" && "16"[..1] == "1" && "1"[..0] == "";
    assert "254"[..2] == "25" && "25"[..1] == "2" && "2"[..0] == "";
    assert Decimal(16) == "16" && Decimal(25) == "25";
  }

  lemma TextOf(d: string, text: string)
    requires AllDigits(d) && AllDigits(text)
    ensures d == text ==> Value(d) == Value(text)
  {
  }

  lemma PrefixParts(first: string, second: string, rest: string)
    requires '.' !in first && '.' !in second && 1 <= |first| <= 3 && 1 <= |second| <= 3
    requires rest != "" && rest[0] == '.'
    ensures "169.254" <= first + "." + (second + rest) <==> first == "169" && second == "254"
  {
    var text := first + "." + (second + rest);
    assert text[|first|] == '.' && text[|first| + 1 + |second|] == '.';
    assert text[..|first|] == first && text[|first| + 1..][..|second|] == second;
    if "169.254" <= text {
      assert text[..7] == "169.254";
      assert text[0] == '1' && text[1] == '6' && text[2] == '9' && text[3] == '.';
      assert text[4] == '2' && text[5] == '5' && text[6] == '4';
      assert first == "169";
      assert second == "254";
    }
    if first == "169" && second == "254" {
      assert text[..7] == "169.254";
    }
  }

  /** How many of the lower n bits of a byte are set. */
  function Ones(byte: nat, n: nat): nat {
    if n == 0 then 0 else Ones(byte, n - 1) + byte / Pow2(n - 1) % 2
  }

  function BitsSet(byte: nat, n: nat): set<int> { set i | 0 <= i < n && byte / Pow2(i) % 2 == 1 }

  lemma {:induction false} OnesIsCount(byte: nat, n: nat)
    ensures Ones(byte, n) == |BitsSet(byte, n)|
  {
    hide Pow2;
    if n > 0 {
      OnesIsCount(byte, n - 1);
      var top := if byte / Pow2(n - 1) % 2 == 1 then {n - 1} else {};
      assert BitsSet(byte, n) == BitsSet(byte, n - 1) + top;
    }
  }

  /** The set bits in front of the first zero byte, as update counts the prefix of an IPv6 netmask. */
  function OnesBeforeZero(netmask: seq<nat>): nat {
    if netmask == [] || netmask[0] == 0 then 0 else Ones(netmask[0], 8) + OnesBeforeZero(netmask[1..])
  }

  method CountPrefix(netmask: seq<nat>) returns (bitCount: nat)
    ensures bitCount == OnesBeforeZero(netmask)
  {
    hide And, Pow2;
    bitCount := 0;
    var bytePos := 0;
    while bytePos < |netmask| && netmask[bytePos] != 0
      invariant bytePos <= |netmask|
      invariant bitCount + OnesBeforeZero(netmask[bytePos..]) == OnesBeforeZero(netmask)
    {
      var byte := netmask[bytePos];
      var mask := 1;
      ghost var before := bitCount;
      PowZero();
      for bitPos := 0 to 8
        invariant mask == Pow2(bitPos) && bitCount == before + Ones(byte, bitPos)
      {
        TestBit(byte, bitPos);
        if And(byte, mask) != 0 {
          bitCount := bitCount + 1;
        }
        TwiceLess(bitPos);
        mask := 2 * mask;
      }
      assert netmask[bytePos..][1..] == netmask[bytePos + 1..];
      bytePos := bytePos + 1;
    }
  }

  /** The bytes of the contiguous mask with the given prefix. */
  function MaskBytes(count: nat, prefix: nat): seq<nat> {
    if count == 0 then []
    else if prefix >= 8 then [MaskValue(8, 8)] + MaskBytes(count - 1, prefix - 8)
    else [MaskValue(8, prefix)] + MaskBytes(count - 1, 0)
  }

  lemma {:induction false} OnesOfMask(width: nat, prefix: nat, n: nat)
    requires prefix <= width && n <= width
    ensures Ones(MaskValue(width, prefix), n) == if n + prefix < width then 0 else n + prefix - width
    decreases n
  {
    if n > 0 {
      hide Pow2, MaskValue;
      OnesOfMask(width, prefix, n - 1);
      MaskBit(width, prefix, width - n);
    }
  }

  lemma MaskZero(width: nat)
    ensures MaskValue(width, 0) == 0
    ensures forall p :: 0 < p <= width ==> MaskValue(width, p) > 0
  {
    forall p | 0 < p <= width ensures MaskValue(width, p) > 0 {
      TwiceLess(width - p);
      PowMono(width - p + 1, width);
    }
  }

  /** Of every contiguous mask the count is the prefix. */
  lemma {:induction false} CountIsPrefix(count: nat, prefix: nat)
    requires prefix <= 8 * count
    ensures OnesBeforeZero(MaskBytes(count, prefix)) == prefix
    decreases count
  {
    hide Pow2, MaskValue, Ones;
    if count > 0 {
      var top := if prefix >= 8 then 8 else prefix;
      OnesOfMask(8, top, 8);
      MaskZero(8);
      CountIsPrefix(count - 1, prefix - top);
      assert MaskBytes(count, prefix)[1..] == MaskBytes(count - 1, prefix - top);
    }
  }

  datatype Address = Address(address: string, netmask: string)

  datatype Prefixed = Prefixed(address: string, prefix: nat)

  datatype SocketAddress =
    | NoAddress
    | OtherFamily
    | V4(address: uint32, netmask: uint32)
    | V6(text: string, mask: seq<nat>)

  datatype Hardware = Hardware(mac: string, guid: nat)

  /** One entry of getifaddrs, with what is looked up by its name. */
  datatype Interface = Interface(
    index: nat, name: string, multicast: bool, hardware: Option<Hardware>, master: Option<int>, address: SocketAddress)

  datatype Adapter = Adapter(
    index: nat, name: string, mac: string, guid: nat, master: int, ipv4: seq<Address>, ipv6: seq<Prefixed>)

  const NEW_ADAPTER := Adapter(0, "", "", 0, -1, [], [])

  predicate Listed(i: Interface, index: nat) {
    !i.address.NoAddress? && i.multicast && i.hardware.Some? && i.index == index
  }

  function Printed(a: SocketAddress): Address
    requires a.V4?
  {
    Address(Quad(a.address), Quad(a.netmask))
  }

  /** The entries that belong to one adapter, in order. */
  function Entries(interfaces: seq<Interface>, index: nat): seq<Interface> {
    if interfaces == [] then []
    else
      var front, last := interfaces[..|interfaces| - 1], interfaces[|interfaces| - 1];
      Entries(front, index) + if Listed(last, index) then [last] else []
  }

  /** The IPv4 addresses of some entries, in order. */
  function Found4(entries: seq<Interface>): seq<Address> {
    if entries == [] then []
    else
      var front, last := entries[..|entries| - 1], entries[|entries| - 1];
      Found4(front) + if last.address.V4? then [Printed(last.address)] else []
  }

  function Found6(entries: seq<Interface>): seq<Prefixed> {
    if entries == [] then []
    else
      var front, last := entries[..|entries| - 1], entries[|entries| - 1];
      Found6(front) +
      if last.address.V6? then [Prefixed(last.address.text, OnesBeforeZero(last.address.mask))] else []
  }

  /** The last master that was readable, -1 if none was. */
  function LastMaster(entries: seq<Interface>): int {
    if entries == [] then -1
    else if entries[|entries| - 1].master.Some? then entries[|entries| - 1].master.value
    else LastMaster(entries[..|entries| - 1])
  }

  /** The APIPA addresses in order. */
  function Apipas(addresses: seq<Address>): seq<Address> {
    if addresses == [] then []
    else
      var front, last := addresses[..|addresses| - 1], addresses[|addresses| - 1];
      Apipas(front) + if IsApipa(last.address) then [last] else []
  }

  /** The other addresses, the last found first. */
  function OthersReversed(addresses: seq<Address>): seq<Address> {
    if addresses == [] then []
    else
      var front, last := addresses[..|addresses| - 1], addresses[|addresses| - 1];
      (if IsApipa(last.address) then [] else [last]) + OthersReversed(front)
  }

  function Arranged(addresses: seq<Address>): seq<Address> { OthersReversed(addresses) + Apipas(addresses) }

  /** Arranging keeps every address and puts the APIPA addresses at the end. */
  lemma ArrangedIs(addresses: seq<Address>)
    ensures multiset(Arranged(addresses)) == multiset(addresses)
    ensures forall i, j :: 0 <= i < j < |Arranged(addresses)| && IsApipa(Arranged(addresses)[i].address) ==>
              IsApipa(Arranged(addresses)[j].address)
  {
    hide IsApipa;
    Separated(addresses);
  }

  lemma {:induction false} Separated(addresses: seq<Address>)
    ensures multiset(OthersReversed(addresses)) + multiset(Apipas(addresses)) == multiset(addresses)
    ensures forall a :: a in OthersReversed(addresses) ==> !IsApipa(a.address)
    ensures forall a :: a in Apipas(addresses) ==> IsApipa(a.address)
    decreases |addresses|
  {
    hide IsApipa;
    if addresses != [] {
      var front, last := addresses[..|addresses| - 1], addresses[|addresses| - 1];
      Separated(front);
      assert addresses == front + [last];
    }
  }

  /** What update promises of one adapter, from all entries that belong to it. */
  predicate Describes(a: Adapter, entries: seq<Interface>)
  {
    && entries != [] && entries[0].hardware.Some?
    && a.index == entries[0].index && a.name == entries[0].name
    && a.mac == entries[0].hardware.value.mac && a.guid == entries[0].hardware.value.guid
    && a.master == LastMaster(entries)
    && a.ipv4 == Arranged(Found4(entries))
    && a.ipv6 == Found6(entries)
  }

  lemma {:induction false} EntriesListed(interfaces: seq<Interface>, index: nat)
    ensures forall i :: 0 <= i < |Entries(interfaces, index)| ==>
              Listed(Entries(interfaces, index)[i], index) && Entries(interfaces, index)[i] in interfaces
    decreases |interfaces|
  {
    if interfaces != [] {
      EntriesListed(interfaces[..|interfaces| - 1], index);
    }
  }

  ghost predicate Reflects(adapters: map<nat, Adapter>, interfaces: seq<Interface>) {
    forall index :: OneReflects(adapters, interfaces, index)
  }

  ghost predicate OneReflects(adapters: map<nat, Adapter>, interfaces: seq<Interface>, index: nat) {
    var entries := Entries(interfaces, index);
    EntriesListed(interfaces, index);
    && (index in adapters <==> entries != [])
    && (index in adapters ==> Describes(adapters[index], entries))
  }

  ghost predicate MacsKnown(interfaces: seq<Interface>) {
    forall i :: 0 <= i < |interfaces| && interfaces[i].hardware.Some? ==> interfaces[i].hardware.value.mac != ""
  }

  /** One more interface leaves the entries of every adapter as they are, or adds to those of its own. */
  lemma EntriesLast(interfaces: seq<Interface>, last: Interface, index: nat)
    ensures Entries(interfaces + [last], index) ==
            if Listed(last, index) then Entries(interfaces, index) + [last] else Entries(interfaces, index)
  {
    assert (interfaces + [last])[..|interfaces|] == interfaces;
  }

  /** The adapter after one more entry. */
  function Extended(a: Adapter, entry: Interface): Adapter {
    a.(master := if entry.master.Some? then entry.master.value else a.master,
       ipv4 := if !entry.address.V4? then a.ipv4
               else if IsApipa(Printed(entry.address).address) then a.ipv4 + [Printed(entry.address)]
               else [Printed(entry.address)] + a.ipv4,
       ipv6 := if entry.address.V6? then a.ipv6 + [Prefixed(entry.address.text, OnesBeforeZero(entry.address.mask))]
               else a.ipv6)
  }

  lemma DescribesLast(a: Adapter, entries: seq<Interface>, entry: Interface)
    requires entry.hardware.Some? && (entries != [] ==> Describes(a, entries))
    requires entries == [] ==> a == NEW_ADAPTER.(index := entry.index, name := entry.name,
                                                 mac := entry.hardware.value.mac, guid := entry.hardware.value.guid)
    ensures Describes(Extended(a, entry), entries + [entry])
  {
    hide IsApipa, Quad, OnesBeforeZero, Arranged, LastMaster, Found4, Found6;
    var all := entries + [entry];
    FoundLast(entries, entry);
    FoundNothing();
    if entry.address.V4? {
      ArrangedLast(Found4(entries), Printed(entry.address));
    }
    var extended := Extended(a, entry);
    assert extended.ipv4 == Arranged(Found4(all));
    assert extended.ipv6 == Found6(all) && extended.master == LastMaster(all);
    assert all[0] == if entries == [] then entry else entries[0];
  }

  lemma FoundLast(entries: seq<Interface>, entry: Interface)
    ensures var all := entries + [entry];
            && Found4(all) == (if !entry.address.V4? then Found4(entries) else
                               Found4(entries) + [Printed(entry.address)])
            && LastMaster(all) == (if entry.master.Some? then entry.master.value else LastMaster(entries))
            && Found6(all) == if !entry.address.V6? then Found6(entries) else
                              Found6(entries) + [Prefixed(entry.address.text, OnesBeforeZero(entry.address.mask))]
  {
    assert (entries + [entry])[..|entries|] == entries;
  }

  lemma FoundNothing()
    ensures Arranged(Found4([])) == [] && Found6([]) == [] && LastMaster([]) == -1
  {
  }

  lemma ArrangedLast(addresses: seq<Address>, last: Address)
    ensures Arranged(addresses + [last]) ==
            if IsApipa(last.address) then Arranged(addresses) + [last] else [last] + Arranged(addresses)
  {
    hide IsApipa;
    assert (addresses + [last])[..|addresses|] == addresses;
    var others, apipas := OthersReversed(addresses), Apipas(addresses);
    assert [last] + (others + apipas) == ([last] + others) + apipas;
    assert (others + apipas) + [last] == others + (apipas + [last]);
    assert [] + others == others && apipas + [] == apipas;
  }

  lemma StepReflects(before: map<nat, Adapter>, interfaces: seq<Interface>, entry: Interface, after: map<nat, Adapter>)
    requires Reflects(before, interfaces)
    requires if Listed(entry, entry.index) then
               && entry.index in after && after == before[entry.index := after[entry.index]]
               && Describes(after[entry.index], Entries(interfaces, entry.index) + [entry])
             else after == before
    ensures Reflects(after, interfaces + [entry])
  {
    hide Describes, Entries;
    forall index ensures OneReflects(after, interfaces + [entry], index) {
      assert OneReflects(before, interfaces, index);
      EntriesLast(interfaces, entry, index);
    }
  }

  lemma {:induction false} HasLeast(keys: set<nat>, some: nat) returns (least: nat)
    requires some in keys
    ensures least in keys && forall k :: k in keys ==> least <= k
    decreases some
  {
    if k: nat :| k in keys && k < some {
      least := HasLeast(keys, k);
    } else {
      least := some;
    }
  }

  lemma LeastOf(keys: set<nat>)
    requires keys != {}
    ensures exists least :: least in keys && forall k :: k in keys ==> least <= k
  {
    var some :| some in keys;
    var least := HasLeast(keys, some);
  }

  /** The order in which an ordered map is walked. */
  function Ascending(keys: set<nat>): (order: seq<nat>) {
    if keys == {} then []
    else
      LeastOf(keys);
      var least :| least in keys && forall k :: k in keys ==> least <= k;
      [least] + Ascending(keys - {least})
  }

  lemma {:induction false} AscendingIs(keys: set<nat>)
    ensures forall k :: k in Ascending(keys) <==> k in keys
    ensures forall i, j :: 0 <= i < j < |Ascending(keys)| ==> Ascending(keys)[i] < Ascending(keys)[j]
    decreases keys
  {
    if keys != {} {
      LeastOf(keys);
      var least :| least in keys && (forall k :: k in keys ==> least <= k) &&
                   Ascending(keys) == [least] + Ascending(keys - {least});
      AscendingIs(keys - {least});
      LeastFirst(keys, least, Ascending(keys - {least}));
    }
  }

  lemma LeastFirst(keys: set<nat>, least: nat, rest: seq<nat>)
    requires least in keys && forall k :: k in keys ==> least <= k
    requires forall k :: k in rest <==> k in keys - {least}
    requires forall i, j :: 0 <= i < j < |rest| ==> rest[i] < rest[j]
    ensures forall k :: k in [least] + rest <==> k in keys
    ensures forall i, j :: 0 <= i < j < |[least] + rest| ==> ([least] + rest)[i] < ([least] + rest)[j]
  {
    forall j | 0 <= j < |rest| ensures least < rest[j] {
      assert rest[j] in rest;
    }
  }

  /** What decides the check in the addresses of one adapter: the first match, or the first exception. */
  function ScanAddresses(name: string, addresses: seq<Address>, requested: string): Option<Attempt> {
    if addresses == [] then None
    else
      var subnet := SubnetOf(addresses[0].address, addresses[0].netmask);
      if !subnet.Text? then Some(subnet)
      else if subnet.text == requested then Some(Text(name))
      else ScanAddresses(name, addresses[1..], requested)
  }

  function Scan(adapters: map<nat, Adapter>, order: seq<nat>, exclude: string, requested: string): Attempt
    requires forall k :: k in order ==> k in adapters
  {
    if order == [] then Text("")
    else
      var adapter := adapters[order[0]];
      var decided := if adapter.name == exclude then None else ScanAddresses(adapter.name, adapter.ipv4, requested);
      if decided.Some? then decided.value else Scan(adapters, order[1..], exclude, requested)
  }

  function Check(adapters: map<nat, Adapter>, exclude: string, requested: Address): Attempt {
    var subnet := SubnetOf(requested.address, requested.netmask);
    AscendingIs(adapters.Keys);
    if subnet.Text? then Scan(adapters, Ascending(adapters.Keys), exclude, subnet.text) else subnet
  }

  class NetadapterList {
    var adapters: map<nat, Adapter>

    constructor ()
      ensures adapters == map[]
    {
      adapters := map[];
    }

    /** update: the hardware address of a listed interface is never empty. */
    method Update(interfaces: seq<Interface>)
      requires MacsKnown(interfaces)
      modifies this
      ensures Reflects(adapters, interfaces)
      ensures AllStored(adapters, interfaces)
      ensures forall index :: index in adapters ==> NothingElse(adapters[index], interfaces, index)
    {
      hide AllStored, NothingElse, Describes, Entries, IsApipa, Quad, OneReflects, Extended, OnesBeforeZero;
      var adapterMap: map<nat, Adapter> := map[];
      NothingReflects();
      for k := 0 to |interfaces|
        invariant Reflects(adapterMap, interfaces[..k])
      {
        var interface := interfaces[k];
        ghost var before, seen := adapterMap, interfaces[..k];
        assert interfaces[..k + 1] == seen + [interface];
        if !interface.address.NoAddress? && interface.multicast && interface.hardware.Some? {
          Previous(adapterMap, seen, interface, interfaces);
          var adapt := if interface.index in adapterMap then adapterMap[interface.index] else NEW_ADAPTER;
          if adapt.mac == "" {
            var hardware := interface.hardware.value;
            adapt := adapt.(index := interface.index, name := interface.name,
                            mac := hardware.mac, guid := hardware.guid);
          }
          ghost var first := adapt;
          if interface.master.Some? {
            adapt := adapt.(master := interface.master.value);
          }
          match interface.address {
            case V4(a, m) =>
              var addressWithNetmask := Address(Quad(a), Quad(m));
              if IsApipa(addressWithNetmask.address) {
                adapt := adapt.(ipv4 := adapt.ipv4 + [addressWithNetmask]);
              } else {
                adapt := adapt.(ipv4 := [addressWithNetmask] + adapt.ipv4);
              }
            case V6(text, mask) =>
              var bitCount := CountPrefix(mask);
              adapt := adapt.(ipv6 := adapt.ipv6 + [Prefixed(text, bitCount)]);
            case _ =>
          }
          IsExtended(first, interface, adapt);
          DescribesLast(first, Entries(seen, interface.index), interface);
          adapterMap := adapterMap[interface.index := adapt];
        }
        StepReflects(before, seen, interface, adapterMap);
      }
      assert interfaces[..|interfaces|] == interfaces;
      UpdateStores(adapterMap, interfaces);
      adapters := adapterMap;
    }

    /** checkSubnet: the search over all adapters but the excluded one, in the order of the interface index. */
    method CheckSubnet(excludeAdapterName: string, requestedAddress: Address) returns (r: Attempt)
      ensures r == Check(adapters, excludeAdapterName, requestedAddress)
      ensures !SubnetOf(requestedAddress.address, requestedAddress.netmask).Text? ==>
                r == SubnetOf(requestedAddress.address, requestedAddress.netmask)
    {
      hide SubnetOf, Ascending;
      var subnet := GetSubnet(requestedAddress.address, requestedAddress.netmask);
      if !subnet.Text? {
        return subnet;
      }
      var requestedSubnet := subnet.text;
      var order := Ascending(adapters.Keys);
      AscendingIs(adapters.Keys);
      for i := 0 to |order|
        invariant Scan(adapters, order, excludeAdapterName, requestedSubnet) ==
                  Scan(adapters, order[i..], excludeAdapterName, requestedSubnet)
      {
        var adapter := adapters[order[i]];
        if excludeAdapterName != adapter.name {
          var addresses := adapter.ipv4;
          for j := 0 to |addresses|
            invariant ScanAddresses(adapter.name, addresses, requestedSubnet) ==
                      ScanAddresses(adapter.name, addresses[j..], requestedSubnet)
          {
            var other := GetSubnet(addresses[j].address, addresses[j].netmask);
            if !other.Text? {
              return other;
            }
            if requestedSubnet == other.text {
              return Text(adapter.name);
            }
          }
        }
      }
      r := Text("");
    }
  }

  lemma NothingReflects()
    ensures Reflects(map[], [])
  {
    forall index ensures OneReflects(map[], [], index) {
      assert Entries([], index) == [];
    }
  }

  lemma Previous(adapters: map<nat, Adapter>, seen: seq<Interface>, entry: Interface, interfaces: seq<Interface>)
    requires Reflects(adapters, seen) && seen <= interfaces && MacsKnown(interfaces)
    ensures var entries := Entries(seen, entry.index);
            && (entry.index in adapters <==> entries != [])
            && (entries != [] ==> Describes(adapters[entry.index], entries) && adapters[entry.index].mac != "")
  {
    hide Entries;
    assert OneReflects(adapters, seen, entry.index);
    EntriesListed(seen, entry.index);
    assert forall i :: i in seen ==> i in interfaces;
  }

  lemma IsExtended(a: Adapter, entry: Interface, b: Adapter)
    requires b.(master := a.master, ipv4 := a.ipv4, ipv6 := a.ipv6) == a
    requires b.master == if entry.master.Some? then entry.master.value else a.master
    requires entry.address.V4? ==>
               var x := Printed(entry.address);
               b.ipv4 == if IsApipa(x.address) then a.ipv4 + [x] else [x] + a.ipv4
    requires !entry.address.V4? ==> b.ipv4 == a.ipv4
    requires entry.address.V6? ==>
               b.ipv6 == a.ipv6 + [Prefixed(entry.address.text, OnesBeforeZero(entry.address.mask))]
    requires !entry.address.V6? ==> b.ipv6 == a.ipv6
    ensures b == Extended(a, entry)
  {
  }

  /** Some address of the adapter lies in the requested subnet. */
  ghost predicate Occupies(a: Adapter, exclude: string, requested: string) {
    a.name != exclude &&
    exists j :: 0 <= j < |a.ipv4| && Hits(a.ipv4[j], requested)
  }

  ghost predicate IsPrinted(a: Address) { ParseQuad(a.address).Some? && ParseQuad(a.netmask).Some? }

  ghost predicate AllPrinted(adapters: map<nat, Adapter>) {
    forall k, j :: k in adapters && 0 <= j < |adapters[k].ipv4| ==> IsPrinted(adapters[k].ipv4[j])
  }

  lemma {:induction false} FoundPrinted(entries: seq<Interface>)
    ensures forall a :: a in Found4(entries) ==> IsPrinted(a)
    decreases |entries|
  {
    hide ParseQuad, Quad;
    if entries != [] {
      FoundPrinted(entries[..|entries| - 1]);
      var last := entries[|entries| - 1].address;
      if last.V4? {
        ParseIff(Quad(last.address), last.address);
        ParseIff(Quad(last.netmask), last.netmask);
      }
    }
  }

  /** update stores printed addresses only. */
  lemma UpdatePrints(adapters: map<nat, Adapter>, interfaces: seq<Interface>)
    requires Reflects(adapters, interfaces)
    ensures AllPrinted(adapters)
  {
    hide IsPrinted, Entries, Arranged;
    forall k, j | k in adapters && 0 <= j < |adapters[k].ipv4| ensures IsPrinted(adapters[k].ipv4[j]) {
      assert OneReflects(adapters, interfaces, k);
      var found := Found4(Entries(interfaces, k));
      FoundPrinted(Entries(interfaces, k));
      ArrangedIs(found);
      assert adapters[k].ipv4[j] in multiset(Arranged(found));
      assert adapters[k].ipv4[j] in found;
    }
  }

  // ---- What is stored, interface by interface --------------------------------------------------------------

  /** The interface belongs to the list: it has an address, takes part in multicast and has hardware. */
  predicate Shown(i: Interface) { i.address != NoAddress && i.multicast && i.hardware != None }

  /** The adapter has this address with this netmask. */
  ghost predicate Holds(a: Adapter, address: uint32, netmask: uint32) {
    exists j :: 0 <= j < |a.ipv4| && Reads(a.ipv4[j], address, netmask)
  }

  predicate Reads(a: Address, address: uint32, netmask: uint32) {
    ParseQuad(a.address) == Some(address) && ParseQuad(a.netmask) == Some(netmask)
  }

  /** The adapter has what the interface tells. */
  ghost predicate Stores(a: Adapter, i: Interface) {
    && a.index == i.index
    && (i.address.V4? ==> Holds(a, i.address.address, i.address.netmask))
    && (i.address.V6? ==> Prefixed(i.address.text, OnesBeforeZero(i.address.mask)) in a.ipv6)
  }

  /** Everything shown is stored under its index. */
  ghost predicate AllStored(adapters: map<nat, Adapter>, interfaces: seq<Interface>) {
    forall i :: 0 <= i < |interfaces| && Shown(interfaces[i]) ==>
      interfaces[i].index in adapters && Stores(adapters[interfaces[i].index], interfaces[i])
  }

  /** A shown interface told this address. */
  ghost predicate Told4(interfaces: seq<Interface>, index: nat, a: Address) {
    exists i :: 0 <= i < |interfaces| && TellsV4(interfaces[i], index, a)
  }

  predicate TellsV4(i: Interface, index: nat, a: Address) {
    Shown(i) && i.index == index && i.address.V4? && Reads(a, i.address.address, i.address.netmask)
  }

  ghost predicate Told6(interfaces: seq<Interface>, index: nat, p: Prefixed) {
    exists i :: 0 <= i < |interfaces| && TellsV6(interfaces[i], index, p)
  }

  predicate TellsV6(i: Interface, index: nat, p: Prefixed) {
    Shown(i) && i.index == index && i.address.V6? && p == Prefixed(i.address.text, OnesBeforeZero(i.address.mask))
  }

  /** The first interface shown under this index. */
  ghost predicate FirstShown(interfaces: seq<Interface>, index: nat, i: int) {
    && 0 <= i < |interfaces| && Shown(interfaces[i]) && interfaces[i].index == index
    && (forall j :: 0 <= j < i ==> !(Shown(interfaces[j]) && interfaces[j].index == index))
  }

  predicate TellsMaster(i: Interface, index: nat) { Shown(i) && i.index == index && i.master.Some? }

  ghost predicate LastTold(interfaces: seq<Interface>, index: nat, i: int) {
    && 0 <= i < |interfaces| && TellsMaster(interfaces[i], index)
    && (forall j :: i < j < |interfaces| ==> !TellsMaster(interfaces[j], index))
  }

  /** The last master that was told, -1 if none was. */
  ghost predicate MasterIs(master: int, interfaces: seq<Interface>, index: nat) {
    && (master == -1 || exists i :: 0 <= i < |interfaces| && TellsMaster(interfaces[i], index))
    && (forall i :: LastTold(interfaces, index, i) ==> master == interfaces[i].master.value)
  }

  /** Nothing else is stored: an adapter has its name and hardware from the first interface shown under its index, the
      last master that was told, and only addresses that were told. */
  ghost predicate NothingElse(a: Adapter, interfaces: seq<Interface>, index: nat) {
    && (exists i :: FirstShown(interfaces, index, i) && a.name == interfaces[i].name && interfaces[i].hardware.Some? &&
          a.mac == interfaces[i].hardware.value.mac && a.guid == interfaces[i].hardware.value.guid)
    && MasterIs(a.master, interfaces, index)
    && (forall j :: 0 <= j < |a.ipv4| ==> Told4(interfaces, index, a.ipv4[j]))
    && (forall j :: 0 <= j < |a.ipv6| ==> Told6(interfaces, index, a.ipv6[j]))
  }

  lemma {:induction false} EntriesAll(interfaces: seq<Interface>, index: nat, i: nat)
    requires i < |interfaces| && Shown(interfaces[i]) && interfaces[i].index == index
    ensures interfaces[i] in Entries(interfaces, index)
    decreases |interfaces|
  {
    if i < |interfaces| - 1 {
      EntriesAll(interfaces[..|interfaces| - 1], index, i);
    }
  }

  lemma {:induction false} Found4Iff(entries: seq<Interface>, a: Address)
    ensures a in Found4(entries) <==> exists e :: e in entries && e.address.V4? && a == Printed(e.address)
    decreases |entries|
  {
    hide Quad;
    if entries != [] {
      Found4Iff(entries[..|entries| - 1], a);
      assert entries == entries[..|entries| - 1] + [entries[|entries| - 1]];
    }
  }

  lemma {:induction false} Found6Iff(entries: seq<Interface>, p: Prefixed)
    ensures p in Found6(entries) <==>
            exists e :: e in entries && e.address.V6? && p == Prefixed(e.address.text, OnesBeforeZero(e.address.mask))
    decreases |entries|
  {
    hide OnesBeforeZero;
    if entries != [] {
      Found6Iff(entries[..|entries| - 1], p);
      assert entries == entries[..|entries| - 1] + [entries[|entries| - 1]];
    }
  }

  lemma PrintedReads(v: uint32, w: uint32)
    ensures Reads(Address(Quad(v), Quad(w)), v, w)
  {
    ParseIff(Quad(v), v);
    ParseIff(Quad(w), w);
  }

  lemma ArrangedHas(addresses: seq<Address>, a: Address)
    ensures a in Arranged(addresses) <==> a in addresses
  {
    hide Arranged;
    ArrangedIs(addresses);
    assert a in multiset(Arranged(addresses)) <==> a in multiset(addresses);
  }

  lemma OneStored(adapters: map<nat, Adapter>, interfaces: seq<Interface>, i: nat)
    requires Reflects(adapters, interfaces) && i < |interfaces| && Shown(interfaces[i])
    ensures interfaces[i].index in adapters && Stores(adapters[interfaces[i].index], interfaces[i])
  {
    hide Arranged, Quad, ParseQuad, OnesBeforeZero, Entries, Found4, Found6, Reads;
    var e := interfaces[i];
    var entries := Entries(interfaces, e.index);
    EntriesAll(interfaces, e.index, i);
    assert OneReflects(adapters, interfaces, e.index);
    EntriesListed(interfaces, e.index);
    var a := adapters[e.index];
    if e.address.V4? {
      var x := Printed(e.address);
      Found4Iff(entries, x);
      ArrangedHas(Found4(entries), x);
      var j :| 0 <= j < |a.ipv4| && a.ipv4[j] == x;
      PrintedReads(e.address.address, e.address.netmask);
    }
    if e.address.V6? {
      Found6Iff(entries, Prefixed(e.address.text, OnesBeforeZero(e.address.mask)));
    }
  }

  lemma {:induction false} EntriesFirst(interfaces: seq<Interface>, index: nat)
    requires Entries(interfaces, index) != []
    ensures exists i :: FirstShown(interfaces, index, i) && Entries(interfaces, index)[0] == interfaces[i]
    decreases |interfaces|
  {
    var front, last := interfaces[..|interfaces| - 1], |interfaces| - 1;
    if Entries(front, index) != [] {
      EntriesFirst(front, index);
      var i :| FirstShown(front, index, i) && Entries(front, index)[0] == front[i];
      assert FirstShown(interfaces, index, i);
    } else {
      forall j | 0 <= j < last ensures !(Shown(interfaces[j]) && interfaces[j].index == index) {
        if Shown(front[j]) && front[j].index == index { EntriesAll(front, index, j); }
      }
      assert FirstShown(interfaces, index, last);
    }
  }

  lemma {:induction false} MasterTold(interfaces: seq<Interface>, index: nat)
    ensures MasterIs(LastMaster(Entries(interfaces, index)), interfaces, index)
    decreases |interfaces|
  {
    hide Entries, MasterIs, LastMaster;
    if interfaces == [] {
      NoMaster(index);
    } else {
      var front, last := interfaces[..|interfaces| - 1], interfaces[|interfaces| - 1];
      MasterTold(front, index);
      assert interfaces == front + [last];
      EntriesLast(front, last, index);
      var entries := Entries(front, index);
      FoundLast(entries, last);
      MasterKeeps(LastMaster(entries), front, last, index);
    }
  }

  lemma NoMaster(index: nat)
    ensures MasterIs(LastMaster(Entries([], index)), [], index)
  {
  }

  lemma MasterKeeps(m: int, front: seq<Interface>, last: Interface, index: nat)
    requires MasterIs(m, front, index)
    ensures MasterIs(if TellsMaster(last, index) then last.master.value else m, front + [last], index)
  {
    hide TellsMaster;
    var all := front + [last];
    if TellsMaster(last, index) {
      assert TellsMaster(all[|front|], index);
    } else if i :| 0 <= i < |front| && TellsMaster(front[i], index) {
      assert TellsMaster(all[i], index);
    }
    forall i | LastTold(all, index, i) ensures i == |front| || LastTold(front, index, i) {
      if i < |front| {
        assert forall j :: i < j < |front| ==> front[j] == all[j];
      }
    }
    assert LastTold(all, index, |front|) <==> TellsMaster(last, index);
    assert all[|front|] == last;
    assert TellsMaster(last, index) ==> forall i :: LastTold(all, index, i) ==> i == |front|;
  }

  lemma Stored4(interfaces: seq<Interface>, index: nat, a: Address)
    requires a in Found4(Entries(interfaces, index))
    ensures Told4(interfaces, index, a)
  {
    hide Found4, Entries, Reads, Quad;
    var entries := Entries(interfaces, index);
    Found4Iff(entries, a);
    var e :| e in entries && e.address.V4? && a == Printed(e.address);
    EntriesListed(interfaces, index);
    var i :| 0 <= i < |interfaces| && interfaces[i] == e;
    PrintedReads(e.address.address, e.address.netmask);
    assert TellsV4(interfaces[i], index, a);
  }

  lemma Stored6(interfaces: seq<Interface>, index: nat, p: Prefixed)
    requires p in Found6(Entries(interfaces, index))
    ensures Told6(interfaces, index, p)
  {
    hide Found6, Entries, OnesBeforeZero;
    var entries := Entries(interfaces, index);
    Found6Iff(entries, p);
    var e :| e in entries && e.address.V6? && p == Prefixed(e.address.text, OnesBeforeZero(e.address.mask));
    EntriesListed(interfaces, index);
    var i :| 0 <= i < |interfaces| && interfaces[i] == e;
    assert TellsV6(interfaces[i], index, p);
  }

  lemma OneFromInterfaces(adapters: map<nat, Adapter>, interfaces: seq<Interface>, index: nat)
    requires Reflects(adapters, interfaces) && index in adapters
    ensures NothingElse(adapters[index], interfaces, index)
  {
    hide Entries, Arranged, Found4, Found6, LastMaster, FirstShown, Told4, Told6, MasterIs;
    var a, entries := adapters[index], Entries(interfaces, index);
    assert OneReflects(adapters, interfaces, index);
    EntriesFirst(interfaces, index);
    MasterTold(interfaces, index);
    forall j | 0 <= j < |a.ipv4| ensures Told4(interfaces, index, a.ipv4[j]) {
      ArrangedHas(Found4(entries), a.ipv4[j]);
      Stored4(interfaces, index, a.ipv4[j]);
    }
    forall j | 0 <= j < |a.ipv6| ensures Told6(interfaces, index, a.ipv6[j]) {
      Stored6(interfaces, index, a.ipv6[j]);
    }
  }

  /** What update stores, in the interfaces' own terms: everything that is shown, and nothing else. */
  lemma UpdateStores(adapters: map<nat, Adapter>, interfaces: seq<Interface>)
    requires Reflects(adapters, interfaces)
    ensures AllStored(adapters, interfaces)
    ensures forall index :: index in adapters ==> NothingElse(adapters[index], interfaces, index)
  {
    hide Reflects, Stores, NothingElse;
    forall i | 0 <= i < |interfaces| && Shown(interfaces[i])
      ensures interfaces[i].index in adapters && Stores(adapters[interfaces[i].index], interfaces[i])
    {
      OneStored(adapters, interfaces, i);
    }
    forall index | index in adapters ensures NothingElse(adapters[index], interfaces, index) {
      OneFromInterfaces(adapters, interfaces, index);
    }
  }

  predicate HasV4(i: Interface, index: nat) { Shown(i) && i.index == index && i.address.V4? }

  /** The positions of the interfaces that told an IPv4 address under this index. */
  function Tellers(interfaces: seq<Interface>, index: nat): set<int> {
    set i | 0 <= i < |interfaces| && HasV4(interfaces[i], index)
  }

  lemma TellersLast(front: seq<Interface>, last: Interface, index: nat)
    ensures Tellers(front + [last], index) == Tellers(front, index) + if HasV4(last, index) then {|front|} else {}
    ensures |front| !in Tellers(front, index)
  {
  }

  lemma {:induction false} StoredCount(interfaces: seq<Interface>, index: nat)
    ensures |Found4(Entries(interfaces, index))| == |Tellers(interfaces, index)|
    decreases |interfaces|
  {
    hide Quad, Tellers, Found4, Entries;
    if interfaces == [] {
      NoTellers(index);
    } else {
      var front, last := interfaces[..|interfaces| - 1], interfaces[|interfaces| - 1];
      StoredCount(front, index);
      assert interfaces == front + [last];
      EntriesLast(front, last, index);
      FoundLast(Entries(front, index), last);
      TellersLast(front, last, index);
    }
  }

  lemma NoTellers(index: nat)
    ensures Found4(Entries([], index)) == [] && Tellers([], index) == {}
  {
  }

  /** No address is stored twice or dropped: there are as many as shown interfaces told. */
  lemma AdapterCount(adapters: map<nat, Adapter>, interfaces: seq<Interface>, index: nat)
    requires Reflects(adapters, interfaces) && index in adapters
    ensures |adapters[index].ipv4| == |Tellers(interfaces, index)|
  {
    hide Arranged, Entries, Found4, Tellers;
    assert OneReflects(adapters, interfaces, index);
    var found := Found4(Entries(interfaces, index));
    ArrangedIs(found);
    assert |multiset(Arranged(found))| == |multiset(found)|;
    StoredCount(interfaces, index);
  }

  /** The network number of an address that getSubnet can read. */
  function Network(a: Address): Option<uint32> {
    match (ReadQuad(a.address), ReadQuad(a.netmask))
    case (Some(v), Some(w)) => Some(Masked(v, w))
    case _ => None
  }

  /** The subnet of a printed address is a text and not empty; it is the requested one exactly when the network numbers
      agree. */
  lemma PrintedSubnet(a: Address, requested: Address)
    requires IsPrinted(a)
    ensures Network(a).Some?
    ensures SubnetOf(a.address, a.netmask).Text? && SubnetOf(a.address, a.netmask).text != ""
    ensures SubnetOf(a.address, a.netmask) == SubnetOf(requested.address, requested.netmask) <==>
            Network(a) == Network(requested)
  {
    hide SubnetOf, ReadQuad, ParseQuad, Quad, Masked;
    var v, w := ParseQuad(a.address).value, ParseQuad(a.netmask).value;
    ParseIff(a.address, v);
    ParseIff(a.netmask, w);
    ReadsQuad(v);
    ReadsQuad(w);
    var s := Quad(Masked(v, w));
    SubnetIff(a.address, a.netmask, s);
    SubnetIff(requested.address, requested.netmask, s);
    if Network(requested).Some? {
      QuadInjective(Masked(v, w), Network(requested).value);
    }
  }

  ghost predicate Hits(a: Address, requested: string) { SubnetOf(a.address, a.netmask) == Text(requested) }

  lemma {:induction false} ScanOne(name: string, addresses: seq<Address>, requested: string)
    requires forall j :: 0 <= j < |addresses| ==> IsPrinted(addresses[j])
    ensures ScanAddresses(name, addresses, requested) ==
            if exists j :: 0 <= j < |addresses| && Hits(addresses[j], requested) then Some(Text(name)) else None
    decreases |addresses|
  {
    hide SubnetOf, IsPrinted, Network;
    if addresses != [] {
      PrintedSubnet(addresses[0], addresses[0]);
      ScanOne(name, addresses[1..], requested);
      assert forall j :: 1 <= j < |addresses| ==> addresses[j] == addresses[1..][j - 1];
    }
  }

  /** What checkSubnet promises: the name of the first adapter that occupies the subnet, no text if none does. */
  ghost predicate FirstOccupying(adapters: map<nat, Adapter>, order: seq<nat>, exclude: string, requested: string,
                                 r: Attempt)
    requires forall k :: k in order ==> k in adapters
  {
    || (r == Text("") && forall i :: 0 <= i < |order| ==> !Occupies(adapters[order[i]], exclude, requested))
    || (exists i :: && 0 <= i < |order| && Occupies(adapters[order[i]], exclude, requested)
                    && r == Text(adapters[order[i]].name)
                    && forall j :: 0 <= j < i ==> !Occupies(adapters[order[j]], exclude, requested))
  }

  lemma {:induction false} ScanFinds(adapters: map<nat, Adapter>, order: seq<nat>, exclude: string, requested: string)
    requires AllPrinted(adapters) && forall k :: k in order ==> k in adapters
    ensures FirstOccupying(adapters, order, exclude, requested, Scan(adapters, order, exclude, requested))
    decreases |order|
  {
    hide SubnetOf, IsPrinted, Occupies, ScanAddresses;
    if order != [] {
      var first := adapters[order[0]];
      OneDecides(adapters, order[0], exclude, requested);
      var rest := order[1..];
      ScanFinds(adapters, rest, exclude, requested);
      if !Occupies(first, exclude, requested) {
        if i :| && 0 <= i < |rest| && Occupies(adapters[rest[i]], exclude, requested)
                && Scan(adapters, rest, exclude, requested) == Text(adapters[rest[i]].name)
                && forall j :: 0 <= j < i ==> !Occupies(adapters[rest[j]], exclude, requested) {
          assert order[i + 1] == rest[i];
          forall j | 0 <= j < i + 1 ensures !Occupies(adapters[order[j]], exclude, requested) {
            if j > 0 { assert order[j] == rest[j - 1]; }
          }
        } else {
          forall i | 0 <= i < |order| ensures !Occupies(adapters[order[i]], exclude, requested) {
            if i > 0 { assert order[i] == rest[i - 1]; }
          }
        }
      }
    }
  }

  lemma OneDecides(adapters: map<nat, Adapter>, k: nat, exclude: string, requested: string)
    requires AllPrinted(adapters) && k in adapters
    ensures var a := adapters[k];
            (if a.name == exclude then None else ScanAddresses(a.name, a.ipv4, requested)) ==
            if Occupies(a, exclude, requested) then Some(Text(a.name)) else None
  {
    hide Hits, IsPrinted, ScanAddresses;
    ScanOne(adapters[k].name, adapters[k].ipv4, requested);
  }

  /** Some address of an adapter that is not excluded has the requested network number. */
  ghost predicate SameNetwork(a: Adapter, exclude: string, requested: Address) {
    a.name != exclude && exists j :: 0 <= j < |a.ipv4| && Network(a.ipv4[j]) == Network(requested)
  }

  lemma OccupiesIff(a: Adapter, exclude: string, requested: Address)
    requires forall j :: 0 <= j < |a.ipv4| ==> IsPrinted(a.ipv4[j])
    requires SubnetOf(requested.address, requested.netmask).Text?
    ensures Occupies(a, exclude, SubnetOf(requested.address, requested.netmask).text) <==>
            SameNetwork(a, exclude, requested)
  {
    hide SubnetOf, Network, IsPrinted;
    forall j | 0 <= j < |a.ipv4|
      ensures Hits(a.ipv4[j], SubnetOf(requested.address, requested.netmask).text) <==>
              Network(a.ipv4[j]) == Network(requested)
    {
      PrintedSubnet(a.ipv4[j], requested);
    }
  }

  /** The adapter with the lowest interface index among those that have the requested network number. */
  ghost predicate LowestWith(adapters: map<nat, Adapter>, k: nat, exclude: string, requested: Address) {
    && k in adapters && SameNetwork(adapters[k], exclude, requested)
    && forall i :: i in adapters && i < k ==> !SameNetwork(adapters[i], exclude, requested)
  }

  /** After update, unless the request itself makes getSubnet throw: the name of the adapter with the lowest interface
      index that is not excluded and has an address with the requested network number; no text if there is none. */
  lemma CheckFinds(adapters: map<nat, Adapter>, exclude: string, requested: Address)
    requires AllPrinted(adapters) && SubnetOf(requested.address, requested.netmask).Text?
    ensures (exists k :: && LowestWith(adapters, k, exclude, requested)
                         && Check(adapters, exclude, requested) == Text(adapters[k].name))
            || (&& Check(adapters, exclude, requested) == Text("")
                && forall k :: k in adapters ==> !SameNetwork(adapters[k], exclude, requested))
  {
    hide SubnetOf, IsPrinted, Scan, Occupies, SameNetwork, Ascending;
    var subnet := SubnetOf(requested.address, requested.netmask);
    var order := Ascending(adapters.Keys);
    AscendingIs(adapters.Keys);
    ScanFinds(adapters, order, exclude, subnet.text);
    forall k | k in adapters
      ensures Occupies(adapters[k], exclude, subnet.text) <==> SameNetwork(adapters[k], exclude, requested)
    {
      OccupiesIff(adapters[k], exclude, requested);
    }
    if i :| && 0 <= i < |order| && Occupies(adapters[order[i]], exclude, subnet.text)
            && Scan(adapters, order, exclude, subnet.text) == Text(adapters[order[i]].name)
            && forall j :: 0 <= j < i ==> !Occupies(adapters[order[j]], exclude, subnet.text) {
      forall k | k in adapters && k < order[i] ensures !SameNetwork(adapters[k], exclude, requested) {
        var j :| 0 <= j < |order| && order[j] == k;
      }
      assert LowestWith(adapters, order[i], exclude, requested);
    } else {
      forall k | k in adapters ensures !SameNetwork(adapters[k], exclude, requested) {
        var j :| 0 <= j < |order| && order[j] == k;
      }
    }
  }

  /** With adapter names that are not empty, no text means that the subnet is free. */
  lemma FreeIff(adapters: map<nat, Adapter>, exclude: string, requested: Address)
    requires AllPrinted(adapters) && SubnetOf(requested.address, requested.netmask).Text?
    requires forall k :: k in adapters ==> adapters[k].name != ""
    ensures Check(adapters, exclude, requested) == Text("") <==>
            forall k :: k in adapters ==> !SameNetwork(adapters[k], exclude, requested)
  {
    hide SubnetOf, AllPrinted, SameNetwork, Check;
    CheckFinds(adapters, exclude, requested);
  }
}
