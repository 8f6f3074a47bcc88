/**
 * include/xpedite/framework/CallSiteInfo.H: the immutable record describing
 * one instrumented call site, and the registry that maps a call-site
 * address to its record. Addresses are naturals; the attribute is seen only
 * through its five capability flags.
 */
module CallSites {
  import opened Wrappers

  /** The width of a record's id. */
  newtype uint32 = x: int | 0 <= x < 0x1_0000_0000

  /** The call-site attribute, as the five independent capabilities it answers. */
  datatype CallSiteAttr = CallSiteAttr(
    storeData: bool,
    beginTxn: bool,
    suspendTxn: bool,
    resumeTxn: bool,
    endTxn: bool)

  /** An immutable (address, attribute, id) record; `callSite` and `id` are its accessors. */
  datatype CallSiteInfo = CallSiteInfo(callSite: nat, attr: CallSiteAttr, id: uint32)
  {
    predicate CanStoreData() { attr.storeData }
    predicate CanBeginTxn() { attr.beginTxn }
    predicate CanSuspendTxn() { attr.suspendTxn }
    predicate CanResumeTxn() { attr.resumeTxn }
    predicate CanEndTxn() { attr.endTxn }
  }

  /**
   * A record gives back exactly what it was built from, capabilities
   * included. This holds by the datatype's definition; the lemma records the
   * accessors' contract rather than proving anything about an algorithm.
   */
  lemma RecordKeepsArguments(callSite: nat, attr: CallSiteAttr, id: uint32)
    ensures var info := CallSiteInfo(callSite, attr, id);
            && info.callSite == callSite
            && info.id == id
            && (info.CanStoreData() <==> attr.storeData)
            && (info.CanBeginTxn() <==> attr.beginTxn)
            && (info.CanSuspendTxn() <==> attr.suspendTxn)
            && (info.CanResumeTxn() <==> attr.resumeTxn)
            && (info.CanEndTxn() <==> attr.endTxn)
  {
  }

  /** Every entry is keyed by its own record's address. */
  predicate KeyedBySelf(m: map<nat, CallSiteInfo>)
  {
    forall a :: a in m ==> m[a].callSite == a
  }

  /**
   * Insertion keyed by the record's address that never overwrites (emplace):
   * the address is present afterwards, holding the earlier record if there
   * was one, and no other address changes.
   */
  function Emplace(m: map<nat, CallSiteInfo>, info: CallSiteInfo): (r: map<nat, CallSiteInfo>)
    ensures info.callSite in r
    ensures r[info.callSite] == if info.callSite in m then m[info.callSite] else info
    ensures forall a :: a != info.callSite ==> (a in r <==> a in m)
    ensures forall a :: a in m ==> a in r && (a != info.callSite ==> r[a] == m[a])
  {
    if info.callSite in m then m else m[info.callSite := info]
  }

  /** Lookup of an address (find): the stored record, or none when the address is absent. */
  function Locate(m: map<nat, CallSiteInfo>, a: nat): (r: Option<CallSiteInfo>)
    ensures r.Some? <==> a in m
    ensures r.Some? ==> r.value == m[a]
  {
    if a in m then Some(m[a]) else None
  }

  /** Adding a record for a new address makes it the record found there. */
  lemma AddThenLocate(m: map<nat, CallSiteInfo>, info: CallSiteInfo)
    requires info.callSite !in m
    ensures Locate(Emplace(m, info), info.callSite) == Some(info)
  {
  }

  /** Adding a record for an address already present keeps the first record. */
  lemma DuplicateAddKeepsFirst(m: map<nat, CallSiteInfo>, info: CallSiteInfo)
    requires info.callSite in m
    ensures Emplace(m, info) == m
    ensures Locate(Emplace(m, info), info.callSite) == Some(m[info.callSite])
  {
  }

  /** Adding a record changes no lookup at any other address. */
  lemma AddFrame(m: map<nat, CallSiteInfo>, info: CallSiteInfo, a: nat)
    requires a != info.callSite
    ensures Locate(Emplace(m, info), a) == Locate(m, a)
  {
  }

  /** Adding keeps every entry keyed by its own record's address. */
  lemma AddKeepsKeyed(m: map<nat, CallSiteInfo>, info: CallSiteInfo)
    requires KeyedBySelf(m)
    ensures KeyedBySelf(Emplace(m, info))
  {
  }

  /** The registry after adding `infos`, in order, to an empty one. */
  function Build(infos: seq<CallSiteInfo>): map<nat, CallSiteInfo>
  {
    if |infos| == 0 then map[] else Emplace(Build(infos[..|infos| - 1]), infos[|infos| - 1])
  }

  /** `k` is the first position in `infos` of a record for address `a`. */
  predicate IsFirstAt(infos: seq<CallSiteInfo>, a: nat, k: nat)
  {
    k < |infos| && infos[k].callSite == a && forall j :: 0 <= j < k ==> infos[j].callSite != a
  }

  /**
   * After any sequence of adds, looking up an address never added finds
   * nothing, and looking up an added address finds the FIRST record added
   * for it.
   */
  lemma {:induction false} LocateAfterAdds(infos: seq<CallSiteInfo>, a: nat)
    ensures (forall k :: 0 <= k < |infos| ==> infos[k].callSite != a) ==> Locate(Build(infos), a) == None
    ensures forall k: nat :: IsFirstAt(infos, a, k) ==> Locate(Build(infos), a) == Some(infos[k])
  {
    if |infos| > 0 {
      var pre := infos[..|infos| - 1];
      LocateAfterAdds(pre, a);
      forall k: nat | IsFirstAt(infos, a, k)
        ensures Locate(Build(infos), a) == Some(infos[k])
      {
        if k < |pre| {
          assert IsFirstAt(pre, a, k);
        } else {
          assert forall j :: 0 <= j < |pre| ==> pre[j].callSite != a;
        }
      }
      if forall k :: 0 <= k < |infos| ==> infos[k].callSite != a {
        assert forall j :: 0 <= j < |pre| ==> pre[j].callSite != a;
      }
    }
  }

  /** A registry built by adds keeps every entry keyed by its record's address. */
  lemma {:induction false} BuildKeyedBySelf(infos: seq<CallSiteInfo>)
    ensures KeyedBySelf(Build(infos))
  {
    if |infos| > 0 {
      BuildKeyedBySelf(infos[..|infos| - 1]);
      AddKeepsKeyed(Build(infos[..|infos| - 1]), infos[|infos| - 1]);
    }
  }

  /**
   * One call site registered at 0xABCD that may store data and end a
   * transaction, with id 7: it is found with exactly those flags and that
   * id, and 0x1234 is not found.
   */
  lemma RegistryScenario()
    ensures var info := CallSiteInfo(0xABCD, CallSiteAttr(true, false, false, false, true), 7);
            var found := Locate(Build([info]), 0xABCD);
            && found.Some? && found.value.id == 7
            && found.value.CanStoreData() && found.value.CanEndTxn()
            && !found.value.CanBeginTxn() && !found.value.CanSuspendTxn() && !found.value.CanResumeTxn()
            && Locate(Build([info]), 0x1234) == None
  {
    var info := CallSiteInfo(0xABCD, CallSiteAttr(true, false, false, false, true), 7);
    assert [info][..0] == [];
  }

  /** The registry: a map from call-site address to record, filled by add. */
  class CallSiteMap {
    var entries: map<nat, CallSiteInfo>

    ghost predicate Valid()
      reads this
    {
      KeyedBySelf(entries)
    }

    constructor ()
      ensures Valid() && entries == map[]
    {
      entries := map[];
    }

    /** add: emplace keyed by the record's address; a duplicate address keeps its first record. */
    method Add(info: CallSiteInfo)
      requires Valid()
      modifies this
      ensures Valid()
      ensures entries == Emplace(old(entries), info)
      ensures info.callSite in entries
      ensures old(info.callSite in entries) ==> entries == old(entries)
      ensures forall a :: a != info.callSite ==> LocateInfo(a) == old(LocateInfo(a))
    {
      AddKeepsKeyed(entries, info);
      entries := Emplace(entries, info);
    }

    /** locateInfo: the record stored for `a`, or none; the map is only read. */
    function LocateInfo(a: nat): (r: Option<CallSiteInfo>)
      reads this
      ensures r.Some? <==> a in entries
      ensures r.Some? ==> r.value == entries[a]
      ensures Valid() && r.Some? ==> r.value.callSite == a
    {
      Locate(entries, a)
    }
  }
}
