/**
 * The three netlink callbacks of rmon.c and the delivery of a decoded
 * message to the callback of its socket. What libnl decodes from a message
 * arrives here already decoded, as the fields of an Event; the lines the
 * callbacks print become the returned list of invalidated routes.
 */
module Monitor {
  import opened Wrappers
  import opened Routes
  import opened Chains
  import opened RouteTable

  /** A netlink message type (`nlmsg_type`, a 16-bit field). */
  type MsgType = x: int | 0 <= x < 0x1_0000

  const RTM_NEWLINK: MsgType := 16
  const RTM_DELLINK: MsgType := 17
  const RTM_NEWADDR: MsgType := 20
  const RTM_DELADDR: MsgType := 21
  const RTM_NEWROUTE: MsgType := 24
  const RTM_DELROUTE: MsgType := 25

  /** What a callback returns to libnl: NL_OK (go on with the batch) or NL_SKIP (skip this message). */
  datatype CbResult = NlOk | NlSkip

  /** The first next hop of a route: its output interface and, if it has one, its gateway as text. */
  datatype NextHop = NextHop(ifindex: Int32, gateway: Option<AddrStr>)

  /** A route message as libnl parses it: destination text, first next hop and priority (a `uint32_t`). */
  datatype ParsedRoute = ParsedRoute(dst: Option<AddrStr>, firstHop: Option<NextHop>, priority: UInt32)

  /** The outcome of allocating and parsing the route object. */
  datatype RouteDecode = AllocFailed | ParseFailed | Parsed(route: ParsedRoute)

  /**
   * The header of an address message (`ifa_index` is a `__u32`) and the text
   * of its first IFA_LOCAL or IFA_ADDRESS attribute; None when the attribute
   * walk finds neither or the address cannot be built.
   */
  datatype AddrHeader = AddrHeader(index: UInt32, address: Option<AddrStr>)

  /**
   * A message read from one of the three sockets. A None header stands for
   * `nlmsg_data` giving NULL.
   */
  datatype Event =
    | RouteEvent(msgType: MsgType, decode: RouteDecode)
    | LinkEvent(msgType: MsgType, ifIndex: Option<Int32>)
    | AddrEvent(msgType: MsgType, header: Option<AddrHeader>)

  /** The record route_callback builds, with "unknown", -1 and "none" where the message has no value. */
  function RouteRecord(p: ParsedRoute): RouteInfo {
    var ifindex := if p.firstHop.Some? then p.firstHop.value.ifindex else NO_IFINDEX;
    var gateway := if p.firstHop.Some? then p.firstHop.value.gateway.GetOr(NONE) else NONE;
    RouteInfo(p.dst.GetOr(UNKNOWN), ifindex, gateway, ToInt32(p.priority))
  }

  /** The defaults of route_callback and the field it takes from each part of the message. */
  lemma RouteRecordFields(p: ParsedRoute)
    ensures RouteRecord(p).destination == if p.dst.Some? then p.dst.value else UNKNOWN
    ensures p.firstHop.None? ==> RouteRecord(p).ifindex == -1 && RouteRecord(p).gateway == NONE
    ensures p.firstHop.Some? ==> RouteRecord(p).ifindex == p.firstHop.value.ifindex
    ensures p.firstHop.Some? && p.firstHop.value.gateway.Some? ==> RouteRecord(p).gateway == p.firstHop.value.gateway.value
    ensures p.firstHop.Some? && p.firstHop.value.gateway.None? ==> RouteRecord(p).gateway == NONE
    ensures RouteRecord(p).metric % WORD == p.priority
  {
  }

  predicate IsRouteMsg(msgType: MsgType) {
    msgType == RTM_NEWROUTE || msgType == RTM_DELROUTE
  }

  /** What route_callback returns. */
  function RouteResult(msgType: MsgType): CbResult {
    if IsRouteMsg(msgType) then NlOk else NlSkip
  }

  /**
   * The table after route_callback: NEWROUTE inserts the record, DELROUTE
   * removes its key; other types and allocation or parse failures change
   * nothing. `nodeAllocOk` is the outcome of the insert's node allocation.
   */
  function RouteStep(bs: Buckets, msgType: MsgType, decode: RouteDecode, nodeAllocOk: bool): Buckets
    requires |bs| > 0
  {
    if !IsRouteMsg(msgType) || !decode.Parsed? then bs
    else
      var r := RouteRecord(decode.route);
      if msgType == RTM_NEWROUTE then (if nodeAllocOk then InsertChains(bs, r) else bs)
      else RemoveChains(bs, r.destination, r.ifindex)
  }

  /** What link_callback returns. */
  function LinkResult(msgType: MsgType): CbResult {
    if msgType == RTM_NEWLINK || msgType == RTM_DELLINK then NlOk else NlSkip
  }

  /** The routes link_callback reports as invalidated: on DELLINK, the scan by the link's index. */
  function LinkReport(bs: Buckets, msgType: MsgType, ifIndex: Option<Int32>): seq<RouteInfo> {
    if msgType == RTM_DELLINK && ifIndex.Some? then Matching(bs, ifIndex.value) else []
  }

  /** What addr_callback returns. */
  function AddrResult(msgType: MsgType): CbResult {
    if msgType == RTM_DELADDR then NlOk else NlSkip
  }

  /** The routes addr_callback reports: on DELADDR carrying an address, the scan by the interface's index. */
  function AddrReport(bs: Buckets, msgType: MsgType, header: Option<AddrHeader>): seq<RouteInfo> {
    if msgType == RTM_DELADDR && header.Some? && header.value.address.Some?
    then Matching(bs, ToInt32(header.value.index))
    else []
  }

  /* ---- properties of the dispatch rules ---- */

  /** Every route message keeps the placement invariant. */
  lemma RouteStepPlaced(bs: Buckets, msgType: MsgType, decode: RouteDecode, nodeAllocOk: bool)
    requires |bs| > 0 && Placed(bs)
    ensures Placed(RouteStep(bs, msgType, decode, nodeAllocOk))
  {
    if IsRouteMsg(msgType) && decode.Parsed? {
      var r := RouteRecord(decode.route);
      if msgType == RTM_NEWROUTE {
        InsertPlaced(bs, r);
      } else {
        RemovePlaced(bs, r.destination, r.ifindex);
      }
    }
  }

  /**
   * NEWROUTE stores one more copy of the parsed record; DELROUTE takes one
   * record with the parsed key out, or changes nothing when none is stored;
   * every other message leaves the table as it was.
   */
  lemma RouteStepContents(bs: Buckets, msgType: MsgType, decode: RouteDecode, nodeAllocOk: bool)
    requires |bs| > 0 && Placed(bs)
    ensures !IsRouteMsg(msgType) || !decode.Parsed? || (msgType == RTM_NEWROUTE && !nodeAllocOk) ==>
      RouteStep(bs, msgType, decode, nodeAllocOk) == bs
    ensures msgType == RTM_NEWROUTE && decode.Parsed? && nodeAllocOk ==>
      Elements(RouteStep(bs, msgType, decode, nodeAllocOk)) == Elements(bs) + multiset{RouteRecord(decode.route)}
    ensures msgType == RTM_DELROUTE && decode.Parsed? ==>
      var r := RouteRecord(decode.route);
      if exists s :: s in Elements(bs) && HasKey(s, r.destination, r.ifindex) then
        exists s :: s in Elements(bs) && HasKey(s, r.destination, r.ifindex) &&
          Elements(RouteStep(bs, msgType, decode, nodeAllocOk)) + multiset{s} == Elements(bs)
      else
        RouteStep(bs, msgType, decode, nodeAllocOk) == bs
  {
    if IsRouteMsg(msgType) && decode.Parsed? {
      var r := RouteRecord(decode.route);
      if msgType == RTM_NEWROUTE {
        InsertElements(bs, r);
      } else {
        RemoveElements(bs, r.destination, r.ifindex);
        RemoveFindsStoredKey(bs, r.destination, r.ifindex);
        var removed := RemovedRecord(bs, r.destination, r.ifindex);
        if removed.Some? {
          InElements(bs, removed.value);
          assert removed.value in Elements(RemoveChains(bs, r.destination, r.ifindex)) + multiset{removed.value};
        }
      }
    }
  }

  /** A DELROUTE for the route a NEWROUTE just stored restores the table exactly. */
  lemma NewThenDeleteRestores(bs: Buckets, p: ParsedRoute)
    requires |bs| > 0
    ensures RouteStep(RouteStep(bs, RTM_NEWROUTE, Parsed(p), true), RTM_DELROUTE, Parsed(p), true) == bs
  {
    var r := RouteRecord(p);
    InsertThenRemove(bs, r);
  }

  /**
   * DELLINK reports each stored record on the link's index as often as it
   * is stored, and no other record; NEWLINK and every other message report nothing.
   */
  lemma LinkReportExact(bs: Buckets, msgType: MsgType, ifIndex: Option<Int32>, r: RouteInfo)
    ensures multiset(LinkReport(bs, msgType, ifIndex))[r] ==
      if msgType == RTM_DELLINK && ifIndex.Some? && r.ifindex == ifIndex.value then Elements(bs)[r] else 0
  {
    if msgType == RTM_DELLINK && ifIndex.Some? {
      MatchingCounts(bs, ifIndex.value, r);
    }
  }

  /**
   * DELADDR carrying an IFA_LOCAL or IFA_ADDRESS address reports each stored
   * record on the interface as often as it is stored, and no other record;
   * without such an address, or for any other message, nothing is reported.
   */
  lemma AddrReportExact(bs: Buckets, msgType: MsgType, header: Option<AddrHeader>, r: RouteInfo)
    ensures multiset(AddrReport(bs, msgType, header))[r] ==
      if msgType == RTM_DELADDR && header.Some? && header.value.address.Some?
        && r.ifindex == ToInt32(header.value.index)
      then Elements(bs)[r] else 0
  {
    if msgType == RTM_DELADDR && header.Some? && header.value.address.Some? {
      MatchingCounts(bs, ToInt32(header.value.index), r);
    }
  }

  /** A route stored by NEWROUTE is reported when its interface is then deleted. */
  lemma NewRouteThenLinkDown(bs: Buckets, p: ParsedRoute)
    requires |bs| > 0
    ensures var r := RouteRecord(p);
      r in LinkReport(RouteStep(bs, RTM_NEWROUTE, Parsed(p), true), RTM_DELLINK, Some(r.ifindex))
  {
    var r := RouteRecord(p);
    var bs' := InsertChains(bs, r);
    InsertElements(bs, r);
    MatchingCounts(bs', r.ifindex, r);
  }

  /* ---- the callbacks ---- */

  /** route_callback. */
  method RouteCallback(ht: HashTable, msgType: MsgType, decode: RouteDecode, nodeAllocOk: bool)
    returns (result: CbResult)
    requires ht.Valid()
    modifies ht.buckets
    ensures ht.Valid()
    ensures result == RouteResult(msgType)
    ensures ht.Table() == RouteStep(old(ht.Table()), msgType, decode, nodeAllocOk)
  {
    if msgType != RTM_NEWROUTE && msgType != RTM_DELROUTE {
      return NlSkip;
    }
    match decode
    case AllocFailed =>
      return NlOk;
    case ParseFailed =>
      return NlOk;
    case Parsed(p) =>
      var dst := p.dst.GetOr(UNKNOWN);
      var ifindex := NO_IFINDEX;
      var gw := NONE;
      if p.firstHop.Some? {
        ifindex := p.firstHop.value.ifindex;
        gw := p.firstHop.value.gateway.GetOr(NONE);
      }
      var metric := ToInt32(p.priority);
      if msgType == RTM_NEWROUTE {
        ht.Insert(RouteInfo(dst, ifindex, gw, metric), nodeAllocOk);
      } else {
        ht.Remove(dst, ifindex);
      }
      return NlOk;
  }

  /** link_callback: never changes the table. */
  method LinkCallback(ht: HashTable, msgType: MsgType, ifIndex: Option<Int32>)
    returns (result: CbResult, invalidated: seq<RouteInfo>)
    requires ht.Valid()
    ensures result == LinkResult(msgType)
    ensures invalidated == LinkReport(ht.Table(), msgType, ifIndex)
  {
    invalidated := [];
    if msgType != RTM_NEWLINK && msgType != RTM_DELLINK {
      return NlSkip, [];
    }
    if ifIndex.None? {
      return NlOk, [];
    }
    if msgType == RTM_DELLINK {
      invalidated := ht.FindByIfindex(ifIndex.value);
    }
    result := NlOk;
  }

  /** addr_callback: never changes the table. */
  method AddrCallback(ht: HashTable, msgType: MsgType, header: Option<AddrHeader>)
    returns (result: CbResult, invalidated: seq<RouteInfo>)
    requires ht.Valid()
    ensures result == AddrResult(msgType)
    ensures invalidated == AddrReport(ht.Table(), msgType, header)
  {
    invalidated := [];
    if msgType != RTM_DELADDR {
      return NlSkip, [];
    }
    if header.None? {
      return NlOk, [];
    }
    var ifindex := ToInt32(header.value.index);
    if header.value.address.Some? {
      invalidated := ht.FindByIfindex(ifindex);
    }
    result := NlOk;
  }

  /**
   * A message received on one of the three sockets, handed to the callback
   * registered for that socket. Only route messages change the table.
   */
  method Dispatch(ht: HashTable, ev: Event, nodeAllocOk: bool)
    returns (result: CbResult, invalidated: seq<RouteInfo>)
    requires ht.Valid()
    modifies ht.buckets
    ensures ht.Valid()
    ensures match ev
      case RouteEvent(t, d) =>
        result == RouteResult(t) && invalidated == [] &&
        ht.Table() == RouteStep(old(ht.Table()), t, d, nodeAllocOk)
      case LinkEvent(t, i) =>
        result == LinkResult(t) && invalidated == LinkReport(old(ht.Table()), t, i) &&
        ht.Table() == old(ht.Table())
      case AddrEvent(t, h) =>
        result == AddrResult(t) && invalidated == AddrReport(old(ht.Table()), t, h) &&
        ht.Table() == old(ht.Table())
  {
    match ev
    case RouteEvent(t, d) =>
      result := RouteCallback(ht, t, d, nodeAllocOk);
      invalidated := [];
    case LinkEvent(t, i) =>
      result, invalidated := LinkCallback(ht, t, i);
    case AddrEvent(t, h) =>
      result, invalidated := AddrCallback(ht, t, h);
  }
}
