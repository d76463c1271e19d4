/** The object that knows which access points were heard, which channel to scan next and which
    access point to use: for a station with or without a current access point. */
module ScanningController {
  import opened Addresses
  import opened StaSpec

  datatype Time = At(when: int) | Infinite

  // ---------------------------------------------------------------------------------
  // The order of a scan

  /** The primary channel of the current access point, -1 when there is none. */
  function Primary(current: MacAddress, channels: seq<nat>): int
    requires current != INVALID ==> channels != []
  {
    if current == INVALID then -1 else channels[0]
  }

  function FirstChannel(primary: int): nat {
    if primary == 0 then 1 else 0
  }

  function ChannelAfter(c: nat, primary: int): nat {
    if c + 1 == primary then c + 2 else c + 1
  }

  /** The channels a scan at `c` still hands out before it reports that it is done. */
  function ScanFrom(c: nat, primary: int, channels: nat): seq<nat>
    decreases channels - c
  {
    if c >= channels then [] else [c] + ScanFrom(ChannelAfter(c, primary), primary, channels)
  }

  /** A whole scan: every channel but the primary one, each once, in increasing order. */
  lemma {:induction false} ScanIsComplete(primary: int, channels: nat, scan: seq<nat>)
    requires scan == ScanFrom(FirstChannel(primary), primary, channels)
    ensures forall i, j :: 0 <= i < j < |scan| ==> scan[i] < scan[j]
    ensures forall c: nat :: c in scan <==> c < channels && c != primary
  {
    ScanOrder(FirstChannel(primary), primary, channels);
    forall c: nat
      ensures c in scan <==> c < channels && c != primary
    {
      ScanMembers(FirstChannel(primary), primary, channels, c);
    }
  }

  lemma {:induction false} ScanMembers(c: nat, primary: int, channels: nat, x: nat)
    requires c != primary
    ensures x in ScanFrom(c, primary, channels) <==> c <= x < channels && x != primary
    decreases channels - c
  {
    if c < channels {
      ScanMembers(ChannelAfter(c, primary), primary, channels, x);
    }
  }

  lemma {:induction false} ScanOrder(c: nat, primary: int, channels: nat)
    ensures forall i :: 0 <= i < |ScanFrom(c, primary, channels)| ==> c <= ScanFrom(c, primary, channels)[i]
    ensures forall i, j :: 0 <= i < j < |ScanFrom(c, primary, channels)| ==>
              ScanFrom(c, primary, channels)[i] < ScanFrom(c, primary, channels)[j]
    decreases channels - c
  {
    if c < channels {
      ScanOrder(ChannelAfter(c, primary), primary, channels);
    }
  }

  // ---------------------------------------------------------------------------------
  // The decision at the end of a scan

  /** What a finished scan decides: the access point to go to, and whether to give up. */
  datatype Decision = Decision(next: MacAddress, giveUp: bool)

  ghost function Decide(cfg: Config, heard: Heard, current: MacAddress): Decision
    requires INVALID !in heard
  {
    var best := Best(heard, cfg.lowest);
    var signal := Signal(heard, cfg.lowest, best);
    if current == INVALID then Decision(Chosen(cfg, heard), false)
    else if signal < cfg.associationThreshold then Decision(INVALID, true)
    else if signal - Signal(heard, cfg.lowest, current) >= cfg.improvementThreshold then Decision(best, false)
    else Decision(INVALID, false)
  }

  /** An access point worth going to: above the lowest value, meeting the threshold and, for a
      station that has a current one, better than that by the required margin. */
  predicate Worthwhile(cfg: Config, heard: Heard, current: MacAddress, ap: MacAddress) {
    && ap in heard && heard[ap].average > cfg.lowest && heard[ap].average >= cfg.associationThreshold
    && (current == INVALID ||
        heard[ap].average - Signal(heard, cfg.lowest, current) >= cfg.improvementThreshold)
  }

  /** A scan sends the station to an access point if and only if some are worth going to, and then
      to the best of all heard; with a positive margin that is never the current one. */
  lemma {:induction false} BestIsTakenIff(cfg: Config, heard: Heard, current: MacAddress, d: Decision)
    requires INVALID !in heard && d == Decide(cfg, heard, current)
    ensures d.next != INVALID <==> exists k :: Worthwhile(cfg, heard, current, k)
    ensures d.next != INVALID ==> Worthwhile(cfg, heard, current, d.next) && IsBest(heard, cfg.lowest, d.next)
    ensures cfg.improvementThreshold > 0.0 && d.next != INVALID ==> d.next != current
  {
    var best := Best(heard, cfg.lowest);
    assert IsBest(heard, cfg.lowest, best);
    if k :| Worthwhile(cfg, heard, current, k) {
      assert best != INVALID && heard[k].average <= heard[best].average;
      assert Worthwhile(cfg, heard, current, best);
    }
    if d.next != INVALID {
      assert Worthwhile(cfg, heard, current, d.next);
    }
  }

  /** A scan makes a station give up its access point if and only if it hears nobody, its own
      access point included, who meets the threshold. */
  lemma {:induction false} GivesUpIff(cfg: Config, heard: Heard, current: MacAddress, d: Decision)
    requires INVALID !in heard && d == Decide(cfg, heard, current)
    ensures d.giveUp <==>
            && current != INVALID && cfg.lowest < cfg.associationThreshold
            && forall k :: k in heard ==> heard[k].average < cfg.associationThreshold || heard[k].average <= cfg.lowest
  {
    var best := Best(heard, cfg.lowest);
    assert IsBest(heard, cfg.lowest, best);
  }

  /** The entries with a key in `keys`. */
  function Among(heard: Heard, keys: set<MacAddress>): Heard {
    map k | k in heard && k in keys :: heard[k]
  }

  lemma {:induction false} LeastExists(keys: set<MacAddress>)
    requires keys != {}
    ensures exists k :: k in keys && forall j :: j in keys ==> k <= j
  {
    var x :| x in keys;
    if keys != {x} {
      LeastExists(keys - {x});
      var k :| k in keys - {x} && forall j :: j in keys - {x} ==> k <= j;
      var least := if x < k then x else k;
      assert forall j :: j in keys ==> j == x || j in keys - {x};
      assert least in keys && forall j :: j in keys ==> least <= j;
    } else {
      assert x in keys && forall j :: j in keys ==> x <= j;
    }
  }

  /** The search has seen the entries up to an address and holds the best of them. */
  ghost predicate BestSoFar(heard: Heard, lowest: real, seen: set<MacAddress>,
                            maxRssi: real, best: MacAddress, channels: seq<nat>)
  {
    && IsBest(Among(heard, seen), lowest, best)
    && maxRssi == Signal(Among(heard, seen), lowest, best)
    && (best != INVALID ==> best in heard)
    && channels == (if best in heard then heard[best].channels else [])
  }

  lemma {:induction false} BestOfOneMore(heard: Heard, lowest: real, seen: set<MacAddress>, k: MacAddress,
                                         maxRssi: real, best: MacAddress, channels: seq<nat>)
    requires INVALID !in heard && k in heard && AllBelow(seen, {k})
    requires BestSoFar(heard, lowest, seen, maxRssi, best, channels)
    ensures if heard[k].average > maxRssi
            then BestSoFar(heard, lowest, seen + {k}, heard[k].average, k, heard[k].channels)
            else BestSoFar(heard, lowest, seen + {k}, maxRssi, best, channels)
  {
    var now := Among(heard, seen + {k});
    var was := Among(heard, seen);
    assert forall j :: j in now <==> j == k || j in was;
    assert best != INVALID ==> best in was;
  }

  lemma {:induction false} BestOfAll(heard: Heard, lowest: real, seen: set<MacAddress>,
                                     maxRssi: real, best: MacAddress, channels: seq<nat>)
    requires INVALID !in heard && seen == heard.Keys
    requires BestSoFar(heard, lowest, seen, maxRssi, best, channels)
    ensures best == Best(heard, lowest) && maxRssi == Signal(heard, lowest, best)
  {
    assert Among(heard, seen) == heard;
    BestUnique(heard, lowest, best, Best(heard, lowest));
  }

  ghost predicate AllBelow(seen: set<MacAddress>, rest: set<MacAddress>) {
    forall i, j :: i in seen && j in rest ==> i < j
  }

  /** The next key of an ordered map. */
  method NextKey(rest: set<MacAddress>, ghost seen: set<MacAddress>) returns (k: MacAddress)
    requires rest != {} && AllBelow(seen, rest)
    ensures k in rest && AllBelow(seen, {k}) && AllBelow(seen + {k}, rest - {k})
  {
    LeastExists(rest);
    k :| k in rest && forall j :: j in rest ==> k <= j;
  }

  /** The strongest access point heard, the entries being visited in increasing address order. */
  method FindBest(heard: Heard, lowest: real) returns (maxRssi: real, best: MacAddress, bestChannels: seq<nat>)
    requires INVALID !in heard && forall k :: k in heard ==> heard[k].address == k
    ensures best == Best(heard, lowest) && maxRssi == Signal(heard, lowest, best)
    ensures best == INVALID || best in heard
    ensures bestChannels == (if best == INVALID then [] else heard[best].channels)
  {
    maxRssi, best, bestChannels := lowest, INVALID, [];
    var rest := heard.Keys;
    ghost var seen: set<MacAddress> := {};
    while rest != {}
      invariant rest + seen == heard.Keys && AllBelow(seen, rest)
      invariant BestSoFar(heard, lowest, seen, maxRssi, best, bestChannels)
      decreases rest
    {
      var k := NextKey(rest, seen);
      BestOfOneMore(heard, lowest, seen, k, maxRssi, best, bestChannels);
      var beaconInfo := heard[k];
      if beaconInfo.average > maxRssi {
        maxRssi, best, bestChannels := beaconInfo.average, beaconInfo.address, beaconInfo.channels;
      }
      rest := rest - {k};
      seen := seen + {k};
    }
    BestOfAll(heard, lowest, seen, maxRssi, best, bestChannels);
  }

  // ---------------------------------------------------------------------------------

  class ChannelScanningController {
    const cfg: Config
    var nextScanStartTime: Time
    var nextLinkCheckTime: Time
    var nextScanChannelId: nat
    var currentAccessPointBondedChannelList: seq<nat>
    var currentAccessPointMacAddress: MacAddress
    var newBondedChannelList: seq<nat>
    var newAccessPointMacAddress: MacAddress
    var shouldDisassociateFromCurrentAp: bool
    var receivedBeaconInformation: Heard

    ghost predicate Valid()
      reads this
    {
      && INVALID !in receivedBeaconInformation
      && (forall k :: k in receivedBeaconInformation ==> receivedBeaconInformation[k].address == k)
      && (newAccessPointMacAddress != INVALID ==>
            && newAccessPointMacAddress in receivedBeaconInformation)
    }

    constructor (cfg: Config, scanStart: int)
      ensures Valid() && this.cfg == cfg
      ensures nextScanStartTime == At(scanStart) && nextLinkCheckTime == Infinite
      ensures currentAccessPointMacAddress == INVALID && newAccessPointMacAddress == INVALID
      ensures !shouldDisassociateFromCurrentAp && receivedBeaconInformation == map[]
    {
      this.cfg := cfg;
      nextScanStartTime, nextLinkCheckTime := At(scanStart), Infinite;
      nextScanChannelId := 0;
      currentAccessPointBondedChannelList, currentAccessPointMacAddress := [], INVALID;
      newBondedChannelList, newAccessPointMacAddress := [], INVALID;
      shouldDisassociateFromCurrentAp := false;
      receivedBeaconInformation := map[];
    }

    predicate IsAssociated()
      reads this
    {
      currentAccessPointMacAddress != INVALID
    }

    predicate NoInRangeAccessPoints()
      reads this
    {
      && newAccessPointMacAddress == INVALID
      && (shouldDisassociateFromCurrentAp || currentAccessPointMacAddress == INVALID)
    }

    predicate ShouldSwitchAccessPoints()
      reads this
    {
      newAccessPointMacAddress != INVALID && newAccessPointMacAddress != currentAccessPointMacAddress
    }

    method SetCurrentChannelAndAccessPoint(bondedChannelList: seq<nat>, newAccessPointAddress: MacAddress, now: int)
      requires Valid()
      modifies this
      ensures Valid()
      ensures currentAccessPointBondedChannelList == bondedChannelList
      ensures currentAccessPointMacAddress == newAccessPointAddress
      ensures newAccessPointMacAddress == INVALID && !shouldDisassociateFromCurrentAp
      ensures nextLinkCheckTime == At(now + cfg.linkCheckInterval)
      ensures nextScanStartTime == old(nextScanStartTime) && nextScanChannelId == old(nextScanChannelId)
      ensures receivedBeaconInformation == old(receivedBeaconInformation)
    {
      currentAccessPointBondedChannelList := bondedChannelList;
      currentAccessPointMacAddress := newAccessPointAddress;
      newAccessPointMacAddress := INVALID;
      shouldDisassociateFromCurrentAp := false;
      nextLinkCheckTime := At(now + cfg.linkCheckInterval);
    }

    method ClearCurrentChannelAndAccessPoint(now: int)
      requires Valid()
      modifies this
      ensures Valid()
      ensures currentAccessPointBondedChannelList == [] && currentAccessPointMacAddress == INVALID
      ensures newAccessPointMacAddress == INVALID && !shouldDisassociateFromCurrentAp
      ensures nextLinkCheckTime == At(now + cfg.linkCheckInterval)
      ensures nextScanStartTime == old(nextScanStartTime) && nextScanChannelId == old(nextScanChannelId)
      ensures receivedBeaconInformation == old(receivedBeaconInformation)
    {
      SetCurrentChannelAndAccessPoint([], INVALID, now);
    }

    /** Asks to leave exactly when the current access point was not heard within the interval. */
    method CalculateLinkStatus(now: int)
      requires Valid() && IsAssociated()
      modifies this`shouldDisassociateFromCurrentAp, this`nextLinkCheckTime
      ensures Valid()
      ensures shouldDisassociateFromCurrentAp <==>
              || old(shouldDisassociateFromCurrentAp)
              || currentAccessPointMacAddress !in receivedBeaconInformation
              || receivedBeaconInformation[currentAccessPointMacAddress].lastReceived + cfg.linkCheckInterval < now
      ensures nextLinkCheckTime == At(now + cfg.linkCheckInterval)
    {
      var neverReceivedABeacon := false;
      if currentAccessPointMacAddress !in receivedBeaconInformation {
        neverReceivedABeacon := true;
      } else {
        var lastReceivedTime := receivedBeaconInformation[currentAccessPointMacAddress].lastReceived;
        if lastReceivedTime + cfg.linkCheckInterval < now {
          neverReceivedABeacon := true;
        }
      }
      if neverReceivedABeacon {
        shouldDisassociateFromCurrentAp := true;
      }
      nextLinkCheckTime := At(now + cfg.linkCheckInterval);
    }

    method StartScanSequence()
      requires Valid()
      requires IsAssociated() ==> currentAccessPointBondedChannelList != []
      modifies this`nextScanStartTime, this`nextScanChannelId
      ensures Valid() && nextScanStartTime == Infinite
      ensures nextScanChannelId ==
              FirstChannel(Primary(currentAccessPointMacAddress, currentAccessPointBondedChannelList))
    {
      nextScanStartTime := Infinite;
      nextScanChannelId := 0;
      if IsAssociated() && nextScanChannelId == currentAccessPointBondedChannelList[0] {
        nextScanChannelId := nextScanChannelId + 1;
      }
    }

    method ReceiveBeaconInfo(from: MacAddress, channels: seq<nat>, rssi: real, now: int)
      requires Valid() && from != INVALID
      modifies this`receivedBeaconInformation, this`shouldDisassociateFromCurrentAp
      ensures Valid()
      ensures receivedBeaconInformation == Hear(cfg, old(receivedBeaconInformation), from, channels, rssi, now)
      ensures from in receivedBeaconInformation && receivedBeaconInformation[from].channels == channels
      ensures receivedBeaconInformation[from].average ==
              if from in old(receivedBeaconInformation)
              then cfg.smooth(rssi, old(receivedBeaconInformation)[from].average)
              else rssi
      ensures shouldDisassociateFromCurrentAp ==
              if from == currentAccessPointMacAddress && from in old(receivedBeaconInformation)
              then cfg.smooth(rssi, old(receivedBeaconInformation)[from].average) < cfg.disassociationThreshold
              else old(shouldDisassociateFromCurrentAp)
    {
      if from !in receivedBeaconInformation {
        receivedBeaconInformation := receivedBeaconInformation[from := BeaconInfo(channels, from, rssi, rssi, now)];
      } else {
        var entry := receivedBeaconInformation[from];
        entry := entry.(channels := channels, address := from, lastRssi := rssi, lastReceived := now);
        entry := entry.(average := cfg.smooth(rssi, entry.average));
        receivedBeaconInformation := receivedBeaconInformation[from := entry];
        if from == currentAccessPointMacAddress {
          shouldDisassociateFromCurrentAp := entry.average < cfg.disassociationThreshold;
        }
      }
    }

    method GetCurrentAccessPointRssiDbm() returns (rssi: real)
      ensures rssi == Signal(receivedBeaconInformation, cfg.lowest, currentAccessPointMacAddress)
    {
      if currentAccessPointMacAddress !in receivedBeaconInformation {
        return cfg.lowest;
      }
      rssi := receivedBeaconInformation[currentAccessPointMacAddress].average;
    }

    /** Keeps the candidate and its channels in step. */
    ghost predicate Proposes(d: Decision)
      requires Valid()
      reads this
    {
      && newAccessPointMacAddress == d.next
      && newBondedChannelList == (if d.next == INVALID then [] else receivedBeaconInformation[d.next].channels)
    }

    method ChooseAccessPoint(ghost d: Decision)
      requires Valid() && d == Decide(cfg, receivedBeaconInformation, currentAccessPointMacAddress)
      modifies this`newAccessPointMacAddress, this`newBondedChannelList, this`shouldDisassociateFromCurrentAp
      ensures Valid() && Proposes(d)
      ensures shouldDisassociateFromCurrentAp == (old(shouldDisassociateFromCurrentAp) || d.giveUp)
    {
      newAccessPointMacAddress := INVALID;
      newBondedChannelList := [];
      var maxRssi, best, bestChannels := FindBest(receivedBeaconInformation, cfg.lowest);
      if currentAccessPointMacAddress == INVALID {
        if maxRssi >= cfg.associationThreshold {
          newAccessPointMacAddress := best;
          newBondedChannelList := bestChannels;
        }
      } else {
        if maxRssi < cfg.associationThreshold {
          shouldDisassociateFromCurrentAp := true;
        } else {
          var currentRssi := GetCurrentAccessPointRssiDbm();
          if maxRssi - currentRssi >= cfg.improvementThreshold {
            newAccessPointMacAddress := best;
            newBondedChannelList := bestChannels;
          }
        }
      }
    }

    /** Hands out the next channel of the scan, or decides when there is none left. */
    method GetChannelAndDurationToScan(ghost d: Decision) returns (isDone: bool, channelId: nat, duration: int)
      requires Valid() && d == Decide(cfg, receivedBeaconInformation, currentAccessPointMacAddress)
      requires IsAssociated() ==> currentAccessPointBondedChannelList != []
      modifies this`nextScanChannelId, this`newAccessPointMacAddress, this`newBondedChannelList,
               this`shouldDisassociateFromCurrentAp
      ensures Valid()
      ensures ScanFrom(old(nextScanChannelId),
                       Primary(currentAccessPointMacAddress, currentAccessPointBondedChannelList),
                       cfg.numberOfChannels)
              == (if isDone then [] else [channelId]) +
                 ScanFrom(nextScanChannelId, Primary(currentAccessPointMacAddress, currentAccessPointBondedChannelList),
                          cfg.numberOfChannels)
      ensures isDone <==> old(nextScanChannelId) >= cfg.numberOfChannels
      ensures !isDone ==>
                && channelId == old(nextScanChannelId) && duration == cfg.scanTimeout
                && nextScanChannelId ==
                   ChannelAfter(channelId, Primary(currentAccessPointMacAddress, currentAccessPointBondedChannelList))
                && newAccessPointMacAddress == old(newAccessPointMacAddress)
                && newBondedChannelList == old(newBondedChannelList)
                && shouldDisassociateFromCurrentAp == old(shouldDisassociateFromCurrentAp)
      ensures isDone ==>
                && nextScanChannelId == old(nextScanChannelId) && Proposes(d)
                && shouldDisassociateFromCurrentAp == (old(shouldDisassociateFromCurrentAp) || d.giveUp)
    {
      isDone := nextScanChannelId >= cfg.numberOfChannels;
      if !isDone {
        channelId, duration := nextScanChannelId, cfg.scanTimeout;
        nextScanChannelId := nextScanChannelId + 1;
        if IsAssociated() && nextScanChannelId == currentAccessPointBondedChannelList[0] {
          nextScanChannelId := nextScanChannelId + 1;
        }
      } else {
        channelId, duration := 0, 0;
        ChooseAccessPoint(d);
      }
    }

    method GetAccessPointToSwitchTo() returns (bondedChannelList: seq<nat>, accessPoint: MacAddress)
      requires newAccessPointMacAddress != INVALID
      ensures bondedChannelList == newBondedChannelList && accessPoint == newAccessPointMacAddress
    {
      bondedChannelList, accessPoint := newBondedChannelList, newAccessPointMacAddress;
    }
  }
}
