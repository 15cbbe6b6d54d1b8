/** The two computed lists of the status page (src/public/script.js): the
    devices still pending and the devices already modified, each narrowed by
    its own search box to the serials containing the search text, ignoring
    case. */
module StatusPage {
  import opened Text
  import opened Seqs
  import opened DeviceLedger

  /** JavaScript truthiness of the numeric `modify_flag`. */
  predicate Truthy(flag: int)
  {
    flag != 0
  }

  function IsPending(d: Device): bool
  {
    !Truthy(d.modifyFlag)
  }

  function IsModified(d: Device): bool
  {
    Truthy(d.modifyFlag)
  }

  /** `device.sn.toLowerCase().includes(search.toLowerCase())`. */
  function MatchesSearch(search: string): Device -> bool
  {
    (d: Device) => Includes(Lower(d.sn), Lower(search))
  }

  /** `filteredPendingDevices`. */
  function FilteredPending(devices: seq<Device>, pendingSearch: string): (r: seq<Device>)
    ensures |r| <= |devices|
    ensures forall d :: d in r ==> d in devices && !Truthy(d.modifyFlag)
  {
    Filter(Filter(devices, IsPending), MatchesSearch(pendingSearch))
  }

  /** `filteredModifiedDevices`. */
  function FilteredModified(devices: seq<Device>, modifiedSearch: string): (r: seq<Device>)
    ensures |r| <= |devices|
    ensures forall d :: d in r ==> d in devices && Truthy(d.modifyFlag)
  {
    Filter(Filter(devices, IsModified), MatchesSearch(modifiedSearch))
  }

  /** The pending list holds exactly the devices with a falsy flag whose
      lower-cased serial contains the lower-cased search text, in the order
      of `devices`. */
  lemma FilteredPendingSpec(devices: seq<Device>, search: string)
    ensures forall d :: d in FilteredPending(devices, search) <==>
      d in devices && !Truthy(d.modifyFlag) && Includes(Lower(d.sn), Lower(search))
    ensures Subseq(FilteredPending(devices, search), devices)
  {
    FilterSubseq(devices, IsPending);
    FilterSubseq(Filter(devices, IsPending), MatchesSearch(search));
    SubseqTrans(FilteredPending(devices, search), Filter(devices, IsPending), devices);
  }

  /** The modified list holds exactly the devices with a truthy flag whose
      lower-cased serial contains the lower-cased search text, in the order
      of `devices`. */
  lemma FilteredModifiedSpec(devices: seq<Device>, search: string)
    ensures forall d :: d in FilteredModified(devices, search) <==>
      d in devices && Truthy(d.modifyFlag) && Includes(Lower(d.sn), Lower(search))
    ensures Subseq(FilteredModified(devices, search), devices)
  {
    FilterSubseq(devices, IsModified);
    FilterSubseq(Filter(devices, IsModified), MatchesSearch(search));
    SubseqTrans(FilteredModified(devices, search), Filter(devices, IsModified), devices);
  }

  /** An empty search box keeps its whole group. */
  lemma EmptySearchKeepsGroup(devices: seq<Device>)
    ensures FilteredPending(devices, "") == Filter(devices, IsPending)
    ensures FilteredModified(devices, "") == Filter(devices, IsModified)
  {
    forall d: Device
      ensures MatchesSearch("")(d)
    {
      IncludesEmpty(Lower(d.sn));
    }
    FilterAll(Filter(devices, IsPending), MatchesSearch(""));
    FilterAll(Filter(devices, IsModified), MatchesSearch(""));
  }

  /** With both search boxes empty, every device is listed in exactly one
      of the two lists, and the two lengths add up to the device count. */
  lemma EmptySearchPartitions(devices: seq<Device>)
    ensures forall d :: d in devices ==> (d in FilteredPending(devices, "") <==> d !in FilteredModified(devices, ""))
    ensures |FilteredPending(devices, "")| + |FilteredModified(devices, "")| == |devices|
  {
    EmptySearchKeepsGroup(devices);
    FilterPartition(devices, IsPending, IsModified);
  }
}
