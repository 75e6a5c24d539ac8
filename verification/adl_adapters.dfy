/** The adapter-discovery half of the AMD (ADL) backend: reading the vendor id
    out of each adapter's UDID, keeping one record per AMD (bus, device)
    pair, probing each kept adapter's overdrive version once, and the
    subscription counter over the kept adapters. */
module AdlAdapters {
  import opened Common
  import Hex
  import Subscriptions

  /** PCI vendor id of ATI/AMD. */
  const AtiVendorId: int := 0x1002

  /** The literal that precedes the vendor id inside a UDID. */
  const VendorTag: string := "PCI_VEN_"

  /** The fields of ADL's adapter record that the backend reads. The names,
      paths and display fields are carried by the driver but never used. */
  datatype AdapterInfo = AdapterInfo(
    adapterIndex: int,
    udid: string,
    busNumber: int,
    deviceNumber: int,
    functionNumber: int,
    vendorId: int)

  /** `ADLAdapterInfo.Equals`: two records denote the same device when they
      agree on bus and device number, whatever their other fields. */
  predicate SameDevice(a: AdapterInfo, b: AdapterInfo)
    ensures SameDevice(a, b) <==> Key(a) == Key(b)
  {
    a.busNumber == b.busNumber && a.deviceNumber == b.deviceNumber
  }

  function Key(a: AdapterInfo): (int, int)
  {
    (a.busNumber, a.deviceNumber)
  }

  function Keys(s: seq<AdapterInfo>): set<(int, int)>
  {
    set k | 0 <= k < |s| :: Key(s[k])
  }

  // ---------------------------------------------------------------------
  // Vendor id extraction: the pattern PCI_VEN_([\w\d]{1,4})

  /** A regular-expression word character (the ASCII part of `\w`; `\d` adds
      nothing to it). */
  predicate IsWordChar(c: char)
  {
    ('a' <= c <= 'z') || ('A' <= c <= 'Z') || ('0' <= c <= '9') || c == '_'
  }

  /** The pattern matches at position p: the tag followed by a word char. */
  predicate TagAt(s: string, p: int)
  {
    0 <= p && p + |VendorTag| < |s| && s[p..p + |VendorTag|] == VendorTag && IsWordChar(s[p + |VendorTag|])
  }

  /** The leftmost position at or after `from` where the pattern matches. */
  function FindTag(s: string, from: nat): (r: Option<nat>)
    ensures r.Some? ==> from <= r.value && TagAt(s, r.value)
    ensures r.Some? ==> forall q :: from <= q < r.value ==> !TagAt(s, q)
    ensures r.None? ==> forall q :: from <= q ==> !TagAt(s, q)
    decreases |s| - from
  {
    if from + |VendorTag| >= |s| then None
    else if TagAt(s, from) then Some(from)
    else FindTag(s, from + 1)
  }

  /** The greedy run of at most `limit` word characters starting at q. */
  function WordRun(s: string, q: nat, limit: nat): (r: string)
    requires q <= |s|
    ensures |r| <= limit && q + |r| <= |s| && r == s[q..q + |r|]
    ensures forall k :: 0 <= k < |r| ==> IsWordChar(r[k])
    ensures |r| < limit ==> q + |r| == |s| || !IsWordChar(s[q + |r|])
    decreases limit
  {
    if limit == 0 || q == |s| || !IsWordChar(s[q]) then []
    else [s[q]] + WordRun(s, q + 1, limit - 1)
  }

  /** The captured group of the first match of the vendor pattern, if any. */
  function VendorToken(udid: string): (r: Option<string>)
    ensures r.None? <==> forall q :: 0 <= q ==> !TagAt(udid, q)
    ensures r.Some? ==> 1 <= |r.value| <= 4 && forall k :: 0 <= k < |r.value| ==> IsWordChar(r.value[k])
  {
    match FindTag(udid, 0)
    case None => None
    case Some(p) => Some(WordRun(udid, p + |VendorTag|, 4))
  }

  /** The captured token is exactly the word characters that follow the
      leftmost tag, up to four of them, and no earlier position matches. */
  lemma VendorTokenIsLeftmostGreedy(udid: string)
    requires VendorToken(udid).Some?
    ensures var tok := VendorToken(udid).value;
            exists p :: TagAt(udid, p)
              && (forall q :: 0 <= q < p ==> !TagAt(udid, q))
              && udid[p + |VendorTag|..p + |VendorTag| + |tok|] == tok
              && (|tok| < 4 ==> p + |VendorTag| + |tok| == |udid| || !IsWordChar(udid[p + |VendorTag| + |tok|]))
  {
    var p := FindTag(udid, 0).value;
    assert TagAt(udid, p);
  }

  /** The token with an optional leading 0x or 0X removed. */
  function StripHexPrefix(tok: string): (d: string)
    ensures |d| <= |tok| && d == tok[|tok| - |d|..]
    ensures |d| < |tok| <==> |tok| >= 2 && tok[0] == '0' && (tok[1] == 'x' || tok[1] == 'X')
  {
    if |tok| >= 2 && tok[0] == '0' && (tok[1] == 'x' || tok[1] == 'X') then tok[2..] else tok
  }

  /** `Convert.ToInt32(token, 16)`: an optional 0x/0X prefix, then one or more
      hex digits of either case. Anything else raises a format error (None).
      A token has at most four characters, so the value cannot overflow. */
  function ParseVendorHex(tok: string): (r: Option<int>)
    requires |tok| <= 4
    ensures r.Some? <==> |StripHexPrefix(tok)| > 0 && forall k :: 0 <= k < |StripHexPrefix(tok)| ==> Hex.IsHexDigit(StripHexPrefix(tok)[k])
    ensures r.Some? ==> 0 <= r.value < 0x10000 && r.value == Hex.Value(StripHexPrefix(tok))
  {
    var digits := StripHexPrefix(tok);
    if |digits| > 0 && Hex.AllHex(digits) then
      ValueBound(digits);
      Some(Hex.Value(digits))
    else None
  }

  /** Any one to four hex digits, in either case and without a prefix,
      parse to their value. */
  lemma ParseVendorHexDigits(d: string)
    requires 1 <= |d| <= 4 && Hex.AllHex(d)
    ensures ParseVendorHex(d) == Some(Hex.Value(d))
  {
    if |d| >= 2 {
      assert Hex.IsHexDigit(d[1]);
      assert d[1] != 'x' && d[1] != 'X';
    }
    assert StripHexPrefix(d) == d;
  }

  /** After a 0x or 0X prefix, one or two hex digits parse to their value. */
  lemma ParseVendorHexPrefixed(prefix: string, d: string)
    requires prefix == "0x" || prefix == "0X"
    requires 1 <= |d| <= 2 && Hex.AllHex(d)
    ensures ParseVendorHex(prefix + d) == Some(Hex.Value(d))
  {
    var t := prefix + d;
    assert t[0] == '0' && t[1] == prefix[1];
    assert t[2..] == d;
    assert StripHexPrefix(t) == d;
  }

  /** Lower-case digits read the same as upper-case ones, a lone prefix is
      a format error, and so is an underscore, which the vendor pattern
      admits as a word character. */
  lemma ParseVendorHexExamples()
    ensures ParseVendorHex("10de") == Some(0x10DE) && ParseVendorHex("10DE") == Some(0x10DE)
    ensures ParseVendorHex("0x") == None && ParseVendorHex("") == None && ParseVendorHex("1_02") == None
  {
    assert Hex.AllHex("10de") && Hex.AllHex("10DE");
    ParseVendorHexDigits("10de");
    ParseVendorHexDigits("10DE");
    assert Hex.Value("10de") == 0x10DE by {
      assert "10de"[..3] == "10d" && "10d"[..2] == "10" && "10"[..1] == "1" && "1"[..0] == "";
    }
    assert Hex.Value("10DE") == 0x10DE by {
      assert "10DE"[..3] == "10D" && "10D"[..2] == "10" && "10"[..1] == "1" && "1"[..0] == "";
    }
    assert StripHexPrefix("0x") == "";
    assert StripHexPrefix("1_02") == "1_02" && !Hex.IsHexDigit("1_02"[1]);
  }

  lemma {:induction false} ValueBound(s: string)
    requires Hex.AllHex(s) && |s| <= 4
    ensures Hex.Value(s) < 0x10000
  {
    ValueBelowPow(s);
    if |s| == 0 {} else if |s| == 1 {} else if |s| == 2 {} else if |s| == 3 {} else {}
  }

  function Pow16(n: nat): (r: nat)
    ensures r >= 1
  {
    if n == 0 then 1 else 16 * Pow16(n - 1)
  }

  lemma {:induction false} ValueBelowPow(s: string)
    requires Hex.AllHex(s)
    ensures Hex.Value(s) < Pow16(|s|)
    decreases |s|
  {
    if |s| > 0 {
      ValueBelowPow(s[..|s| - 1]);
    }
  }

  /** Every value that fits `width` hex digits (one to four) reads back
      from its zero-padded upper-case rendering at that width. */
  lemma {:induction false} ParseVendorHexRoundTrip(v: nat, width: nat)
    requires 1 <= width <= 4 && v < Pow16(width)
    ensures |Hex.Format(v, width)| == width
    ensures ParseVendorHex(Hex.Format(v, width)) == Some(v)
  {
    DigitsBound(v, width);
    var s := Hex.Format(v, width);
    if |s| >= 2 {
      assert s[1] != 'x' && s[1] != 'X' by { assert Hex.IsUpperHexDigit(s[1]); }
    }
  }

  lemma {:induction false} DigitsBound(v: nat, n: nat)
    requires v < Pow16(n)
    ensures |Hex.Digits(v)| <= n || (n == 0 && |Hex.Digits(v)| == 1)
    decreases v
  {
    if v >= 16 {
      assert n >= 2;
      DigitsBound(v / 16, n - 1);
    }
  }

  /** Reading one raw record: when the UDID carries a vendor token it
      overwrites the vendor id; a token that is not hex makes the backend's
      construction fail (None); without a token the record is unchanged. */
  function ApplyVendorId(info: AdapterInfo): (r: Option<AdapterInfo>)
    ensures VendorToken(info.udid).None? ==> r == Some(info)
    ensures r.Some? ==> r.value == info.(vendorId := r.value.vendorId)
    ensures VendorToken(info.udid).Some? ==>
              (r.Some? <==> ParseVendorHex(VendorToken(info.udid).value).Some?)
    ensures VendorToken(info.udid).Some? && r.Some? ==>
              r.value.vendorId == ParseVendorHex(VendorToken(info.udid).value).value
  {
    match VendorToken(info.udid)
    case None => Some(info)
    case Some(tok) =>
      match ParseVendorHex(tok)
      case None => None
      case Some(v) => Some(info.(vendorId := v))
  }

  /** A concrete ADL UDID yields the AMD vendor id. */
  lemma AmdUdidExample()
    ensures ApplyVendorId(AdapterInfo(0, "PCI_VEN_1002&DEV_67DF", 1, 0, 0, 0)) ==
            Some(AdapterInfo(0, "PCI_VEN_1002&DEV_67DF", 1, 0, 0, AtiVendorId))
  {
    var s := "PCI_VEN_1002&DEV_67DF";
    assert s[0..8] == VendorTag;
    assert TagAt(s, 0);
    assert WordRun(s, 12, 0) == [];
    assert WordRun(s, 8, 4) == "1002";
    assert Hex.Value("1002") == 0x1002 by {
      assert "1002"[..3] == "100" && "100"[..2] == "10" && "10"[..1] == "1" && "1"[..0] == "";
    }
  }

  /** Applies ApplyVendorId to every record; one format error fails all. */
  function ReadAdapters(raw: seq<AdapterInfo>): (r: Option<seq<AdapterInfo>>)
    ensures r.Some? <==> forall k :: 0 <= k < |raw| ==> ApplyVendorId(raw[k]).Some?
    ensures r.Some? ==> |r.value| == |raw|
    ensures r.Some? ==> forall k :: 0 <= k < |raw| ==> Some(r.value[k]) == ApplyVendorId(raw[k])
  {
    if |raw| == 0 then Some([])
    else
      match ApplyVendorId(raw[0])
      case None => None
      case Some(first) =>
        match ReadAdapters(raw[1..])
        case None => None
        case Some(rest) => Some([first] + rest)
  }

  // ---------------------------------------------------------------------
  // Vendor filter and (bus, device) dedup

  /** `new HashSet<ADLAdapterInfo>(infos.Where(vendor == ATI)).ToArray()`:
      the AMD records, keeping the first record of each (bus, device) pair,
      in order of first occurrence. `pos` gives each kept record's position
      in the input. */
  method RetainAmdAdapters(infos: seq<AdapterInfo>) returns (kept: seq<AdapterInfo>, ghost pos: seq<nat>)
    ensures |pos| == |kept|
    ensures forall k :: 0 <= k < |kept| ==> pos[k] < |infos| && infos[pos[k]] == kept[k]
    ensures forall a, b :: 0 <= a < b < |kept| ==> pos[a] < pos[b]
    ensures forall k :: 0 <= k < |kept| ==> kept[k].vendorId == AtiVendorId
    ensures forall a, b :: 0 <= a < b < |kept| ==> !SameDevice(kept[a], kept[b])
    ensures forall q :: 0 <= q < |infos| && infos[q].vendorId == AtiVendorId ==> Key(infos[q]) in Keys(kept)
    ensures forall k, q :: 0 <= k < |kept| && 0 <= q < pos[k] && infos[q].vendorId == AtiVendorId ==>
              !SameDevice(infos[q], kept[k])
    ensures Retained(infos, kept, pos, |infos|)
  {
    kept := [];
    pos := [];
    var seen: set<(int, int)> := {};
    for q := 0 to |infos|
      invariant seen == Keys(kept)
      invariant Retained(infos, kept, pos, q)
    {
      var info := infos[q];
      if info.vendorId == AtiVendorId && Key(info) !in seen {
        RetainKeep(infos, kept, pos, q);
        kept := kept + [info];
        pos := pos + [q];
        seen := seen + {Key(info)};
      } else {
        RetainSkip(infos, kept, pos, q);
      }
    }
  }

  /** What RetainAmdAdapters establishes after the first q records: the
      kept records are AMD records among them, in input order (`pos`
      increasing), with distinct (bus, device) pairs, every AMD pair seen so
      far represented, and each kept record the first of its pair. */
  predicate Retained(infos: seq<AdapterInfo>, kept: seq<AdapterInfo>, pos: seq<nat>, q: nat)
  {
    && |pos| == |kept| && q <= |infos|
    && (forall k :: 0 <= k < |kept| ==> pos[k] < q && infos[pos[k]] == kept[k])
    && (forall a, b :: 0 <= a < b < |kept| ==> pos[a] < pos[b])
    && (forall k :: 0 <= k < |kept| ==> kept[k].vendorId == AtiVendorId)
    && (forall a, b :: 0 <= a < b < |kept| ==> !SameDevice(kept[a], kept[b]))
    && (forall q' :: 0 <= q' < q && infos[q'].vendorId == AtiVendorId ==> Key(infos[q']) in Keys(kept))
    && (forall k, q' :: 0 <= k < |kept| && 0 <= q' < pos[k] && infos[q'].vendorId == AtiVendorId ==>
          !SameDevice(infos[q'], kept[k]))
  }

  /** Record q is AMD and of a new pair: appending it keeps the invariant. */
  lemma RetainKeep(infos: seq<AdapterInfo>, kept: seq<AdapterInfo>, pos: seq<nat>, q: nat)
    requires Retained(infos, kept, pos, q) && q < |infos|
    requires infos[q].vendorId == AtiVendorId && Key(infos[q]) !in Keys(kept)
    ensures Retained(infos, kept + [infos[q]], pos + [q], q + 1)
    ensures Keys(kept + [infos[q]]) == Keys(kept) + {Key(infos[q])}
  {
    var info := infos[q];
    var kept' := kept + [info];
    var pos' := pos + [q];
    KeysAppend(kept, info);
    RetainKeepPositions(infos, kept, pos, q);
    RetainKeepDistinct(infos, kept, pos, q);
  }

  lemma RetainKeepPositions(infos: seq<AdapterInfo>, kept: seq<AdapterInfo>, pos: seq<nat>, q: nat)
    requires Retained(infos, kept, pos, q) && q < |infos| && infos[q].vendorId == AtiVendorId
    ensures var kept', pos' := kept + [infos[q]], pos + [q];
            && |pos'| == |kept'|
            && (forall k :: 0 <= k < |kept'| ==> pos'[k] < q + 1 && infos[pos'[k]] == kept'[k])
            && (forall a, b :: 0 <= a < b < |kept'| ==> pos'[a] < pos'[b])
            && (forall k :: 0 <= k < |kept'| ==> kept'[k].vendorId == AtiVendorId)
  {
    var kept', pos' := kept + [infos[q]], pos + [q];
    assert forall k :: 0 <= k < |kept| ==> kept'[k] == kept[k] && pos'[k] == pos[k];
  }

  lemma RetainKeepDistinct(infos: seq<AdapterInfo>, kept: seq<AdapterInfo>, pos: seq<nat>, q: nat)
    requires Retained(infos, kept, pos, q) && q < |infos|
    requires infos[q].vendorId == AtiVendorId && Key(infos[q]) !in Keys(kept)
    ensures var kept', pos' := kept + [infos[q]], pos + [q];
            && (forall a, b :: 0 <= a < b < |kept'| ==> !SameDevice(kept'[a], kept'[b]))
            && (forall q' :: 0 <= q' < q + 1 && infos[q'].vendorId == AtiVendorId ==> Key(infos[q']) in Keys(kept'))
            && (forall k, q' :: 0 <= k < |kept'| && 0 <= q' < pos'[k] && infos[q'].vendorId == AtiVendorId ==>
                  !SameDevice(infos[q'], kept'[k]))
  {
    var info := infos[q];
    var kept', pos' := kept + [info], pos + [q];
    KeysAppend(kept, info);
    forall k | 0 <= k < |kept| ensures !SameDevice(kept[k], info) {
      assert Key(kept[k]) in Keys(kept);
    }
    forall q' | 0 <= q' < q && infos[q'].vendorId == AtiVendorId ensures !SameDevice(infos[q'], info) {
      assert Key(infos[q']) in Keys(kept);
    }
    assert forall k :: 0 <= k < |kept| ==> kept'[k] == kept[k] && pos'[k] == pos[k];
  }

  /** Record q is not kept: the invariant extends over it unchanged. */
  lemma RetainSkip(infos: seq<AdapterInfo>, kept: seq<AdapterInfo>, pos: seq<nat>, q: nat)
    requires Retained(infos, kept, pos, q) && q < |infos|
    requires !(infos[q].vendorId == AtiVendorId && Key(infos[q]) !in Keys(kept))
    ensures Retained(infos, kept, pos, q + 1)
  {
  }

  lemma KeysAppend(s: seq<AdapterInfo>, x: AdapterInfo)
    ensures Keys(s + [x]) == Keys(s) + {Key(x)}
  {
    var t := s + [x];
    forall y | y in Keys(t) ensures y in Keys(s) + {Key(x)} {
      var k :| 0 <= k < |t| && Key(t[k]) == y;
      if k < |s| { assert t[k] == s[k]; }
    }
    forall y | y in Keys(s) ensures y in Keys(t) {
      var k :| 0 <= k < |s| && Key(s[k]) == y;
      assert t[k] == s[k];
    }
    assert Key(t[|s|]) == Key(x);
  }

  // ---------------------------------------------------------------------
  // Construction and subscription

  /** The backend's state after construction. `adapters` is None when the
      driver reported no adapters at all: the field is then never assigned
      (a null array in the source). */
  datatype AdlService = AdlService(adapters: Option<seq<AdapterInfo>>, overdrive: seq<int>, subscriptions: int)

  predicate Valid(svc: AdlService)
  {
    && (svc.adapters.None? ==> svc.overdrive == [])
    && (svc.adapters.Some? ==> |svc.adapters.value| == |svc.overdrive| &&
                               Subscriptions.Valid(svc.subscriptions, |svc.adapters.value|))
    && (svc.adapters.None? ==> svc.subscriptions == 0)
  }

  datatype AdlInit = Ready(service: AdlService) | VendorIdFormatError

  /** The ADL backend constructor from the adapter count onwards. `raw` is
      what the adapter-info call reports, `overdriveCaps` the overdrive
      version the capability call reports for an adapter index. `pos`
      gives each kept record's position in the records read. */
  method Initialize(numberOfAdapters: int, raw: seq<AdapterInfo>, overdriveCaps: int -> int)
      returns (r: AdlInit, ghost probed: seq<int>, ghost pos: seq<nat>)
    requires numberOfAdapters > 0 ==> |raw| == numberOfAdapters
    ensures r.Ready? ==> Valid(r.service) && r.service.subscriptions == 0
    ensures numberOfAdapters <= 0 ==> r == Ready(AdlService(None, [], 0))
    ensures numberOfAdapters > 0 ==> (r.Ready? <==> ReadAdapters(raw).Some?)
    ensures numberOfAdapters > 0 && r.Ready? ==>
              && r.service.adapters.Some?
              && var kept := r.service.adapters.value;
              && var read := ReadAdapters(raw).value;
              && Retained(read, kept, pos, |read|)
              && probed == seq(|kept|, k requires 0 <= k < |kept| => kept[k].adapterIndex)
              && (forall k :: 0 <= k < |kept| ==> r.service.overdrive[k] == overdriveCaps(probed[k]))
  {
    probed := [];
    pos := [];
    if numberOfAdapters <= 0 {
      return Ready(AdlService(None, [], 0)), probed, pos;
    }
    var read := ReadAdapters(raw);
    if read.None? {
      return VendorIdFormatError, probed, pos;
    }
    var kept;
    kept, pos := RetainAmdAdapters(read.value);
    var versions := [];
    for k := 0 to |kept|
      invariant |versions| == k && |probed| == k
      invariant forall j :: 0 <= j < k ==> probed[j] == kept[j].adapterIndex
      invariant forall j :: 0 <= j < k ==> versions[j] == overdriveCaps(probed[j])
    {
      probed := probed + [kept[k].adapterIndex];
      versions := versions + [overdriveCaps(kept[k].adapterIndex)];
    }
    r := Ready(AdlService(Some(kept), versions, 0));
  }

  datatype AdlSubscription = AdlSubscription(handle: int, service: AdlService)

  /** `SubscribeDevice`. The source reads the adapter array's length, which is
      null when the driver reported no adapters; so the array must exist. */
  function SubscribeDevice(svc: AdlService): (r: AdlSubscription)
    requires Valid(svc) && svc.adapters.Some?
    ensures Valid(r.service)
    ensures r.service == svc.(subscriptions := r.service.subscriptions)
    ensures r.handle != Subscriptions.NoCapacity <==> svc.subscriptions < |svc.adapters.value|
    ensures r.handle != Subscriptions.NoCapacity ==>
              r.handle == svc.subscriptions && r.service.subscriptions == svc.subscriptions + 1
    ensures r.handle == Subscriptions.NoCapacity ==> r.service == svc
  {
    var reply := Subscriptions.Subscribe(svc.subscriptions, |svc.adapters.value|);
    AdlSubscription(reply.handle, svc.(subscriptions := reply.count))
  }

  /** `UnsubscribeDevice`: the counter never goes below zero. */
  function UnsubscribeDevice(svc: AdlService): (r: AdlService)
    requires Valid(svc)
    ensures Valid(r)
    ensures r == svc.(subscriptions := r.subscriptions)
    ensures r.subscriptions >= 0
    ensures svc.subscriptions > 0 ==> r.subscriptions == svc.subscriptions - 1
    ensures svc.subscriptions == 0 ==> r == svc
  {
    svc.(subscriptions := Subscriptions.Unsubscribe(svc.subscriptions))
  }
}
