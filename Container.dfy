/** The parameter container: its header, its index of descriptors, the device
    lists and the profile lists they point to, and the cache of device and
    profile lists the loader fills in (`g_cont`, `g_devs`, `g_dev`, `g_profs`,
    `g_prof`). A descriptor pointer is modelled as a byte offset into the
    container; a NULL pointer is `None`. */
module Container {
  import opened Types
  import opened Bytes

  const MaxDevs := 4               // TFACONT_MAXDEVS
  const MaxProfs := 16             // TFACONT_MAXPROFS
  const MaxCntLength := 256 * 1024 // TFA_MAX_CNT_LENGTH

  /** Size of `struct tfa_container` up to its index table. */
  const HeaderSize := 46

  /** `enum tfa_descriptor_type` tags used by the loader and the writers. */
  const DscDevice := 0
  const DscProfile := 1
  const DscFile := 4
  const DscPatch := 5
  const DscSetInputSelect := 8
  const DscSetSensesDelay := 15
  const DscCmd := 21
  const DscSetMbDrc := 22
  const DscCfMem := 26

  /** The `dsc_set_*` tags whose item is a `struct tfa_msg`. */
  predicate IsSetMessage(t: nat)
  {
    DscSetInputSelect <= t <= DscSetSensesDelay || t == DscSetMbDrc
  }

  /** `ndev`, the number of device lists. */
  function Ndev(s: seq<byte>): nat
    requires |s| >= HeaderSize
  {
    U16LE(s, 40)
  }

  /** The index table is inside the container. */
  predicate IndexFits(s: seq<byte>)
  {
    |s| >= HeaderSize && HeaderSize + 4 * Ndev(s) <= |s|
  }

  /** `tfa_cont_get_dev_list`: the device list of index entry `i`, or NULL
      when `i` is out of range or the entry is not a device list. */
  function DevList(s: seq<byte>, i: int): (r: Option<nat>)
    requires IndexFits(s)
    ensures r.Some? ==> 0 <= i < Ndev(s) && DescType(s, HeaderSize + 4 * i) == DscDevice
    ensures r.Some? ==> r.value == DescOffset(s, HeaderSize + 4 * i)
    ensures r.None? ==> i < 0 || i >= Ndev(s) || DescType(s, HeaderSize + 4 * i) != DscDevice
  {
    if i < 0 || i >= Ndev(s) then None
    else if DescType(s, HeaderSize + 4 * i) != DscDevice then None
    else Some(DescOffset(s, HeaderSize + 4 * i))
  }

  /** A device list at `d` (length @0, bus, dev, func, devid @4, name @8,
      items @12) lies inside the container. */
  predicate DevListFits(s: seq<byte>, d: nat)
  {
    d + 12 <= |s| && d + 12 + 4 * s[d] as nat <= |s|
  }

  /** Every device list the index names lies inside the container. */
  predicate WellFormed(s: seq<byte>)
  {
    IndexFits(s) &&
    forall i :: 0 <= i < Ndev(s) && DevList(s, i).Some? ==> DevListFits(s, DevList(s, i).value)
  }

  /** Item `k` of the device list at `d`. */
  function ItemType(s: seq<byte>, d: nat, k: nat): nat
    requires DevListFits(s, d) && k < s[d] as nat
  {
    DescType(s, d + 12 + 4 * k)
  }

  function ItemOffset(s: seq<byte>, d: nat, k: nat): nat
    requires DevListFits(s, d) && k < s[d] as nat
  {
    DescOffset(s, d + 12 + 4 * k)
  }

  /** Offsets of the profile lists among the first `k` items of the device
      list at `d`, in list order. */
  function ProfPrefix(s: seq<byte>, d: nat, k: nat): seq<nat>
    requires DevListFits(s, d) && k <= s[d] as nat
  {
    if k == 0 then []
    else ProfPrefix(s, d, k - 1) + (if ItemType(s, d, k - 1) == DscProfile then [ItemOffset(s, d, k - 1)] else [])
  }

  /** All the profile lists of device `i`, in list order. */
  function ProfileOffsets(s: seq<byte>, i: int): seq<nat>
    requires WellFormed(s)
  {
    match DevList(s, i)
    case None => []
    case Some(d) => ProfPrefix(s, d, s[d] as nat)
  }

  /** `off` is the offset of a profile-tagged item among the first `k`
      items of the device list at `d`. */
  ghost predicate IsProfileItem(s: seq<byte>, d: nat, k: nat, off: nat)
    requires DevListFits(s, d) && k <= s[d] as nat
  {
    exists x :: 0 <= x < k && ItemType(s, d, x) == DscProfile && ItemOffset(s, d, x) == off
  }

  /** The profiles of a device are exactly its profile-tagged items: each
      one is such an item, and each such item is among them. */
  lemma {:induction false} ProfPrefixTagged(s: seq<byte>, d: nat, k: nat)
    requires DevListFits(s, d) && k <= s[d] as nat
    ensures forall j :: 0 <= j < |ProfPrefix(s, d, k)| ==> IsProfileItem(s, d, k, ProfPrefix(s, d, k)[j])
    ensures forall x :: 0 <= x < k && ItemType(s, d, x) == DscProfile ==> ItemOffset(s, d, x) in ProfPrefix(s, d, k)
    ensures |ProfPrefix(s, d, k)| <= k
  {
    if k > 0 {
      ProfPrefixTagged(s, d, k - 1);
      var p := ProfPrefix(s, d, k - 1);
      assert ProfPrefix(s, d, k)[..|p|] == p;
      forall j | 0 <= j < |ProfPrefix(s, d, k)|
        ensures IsProfileItem(s, d, k, ProfPrefix(s, d, k)[j])
      {
        if j < |p| {
          assert ProfPrefix(s, d, k)[j] == p[j];
          assert IsProfileItem(s, d, k - 1, p[j]);
          var x :| 0 <= x < k - 1 && ItemType(s, d, x) == DscProfile && ItemOffset(s, d, x) == p[j];
          assert 0 <= x < k && ItemType(s, d, x) == DscProfile && ItemOffset(s, d, x) == ProfPrefix(s, d, k)[j];
        } else {
          assert ItemType(s, d, k - 1) == DscProfile && ItemOffset(s, d, k - 1) == ProfPrefix(s, d, k)[j];
        }
      }
    }
  }

  /** Scanning more items only appends profiles. */
  lemma {:induction false} ProfPrefixGrows(s: seq<byte>, d: nat, k: nat, m: nat)
    requires DevListFits(s, d) && k <= m <= s[d] as nat
    ensures ProfPrefix(s, d, k) <= ProfPrefix(s, d, m)
  {
    if k < m {
      ProfPrefixGrows(s, d, k, m - 1);
    }
  }

  /** The `j`-th profile of device `i`, or NULL. */
  function ProfileAt(s: seq<byte>, i: int, j: int): Option<nat>
    requires WellFormed(s)
  {
    if 0 <= j < |ProfileOffsets(s, i)| then Some(ProfileOffsets(s, i)[j]) else None
  }

  /** `tfa_cont_get_dev_prof_list`: walk the items of device `devIdx`,
      counting profile lists, and stop at the `profIdx`-th one. */
  method GetDevProfList(s: seq<byte>, devIdx: int, profIdx: int) returns (r: Option<nat>)
    requires WellFormed(s)
    ensures r == ProfileAt(s, devIdx, profIdx)
  {
    r := None;
    var dev := DevList(s, devIdx);
    if dev.Some? {
      var d := dev.value;
      var idx, hit := 0, 0;
      while idx < s[d] as nat
        invariant 0 <= idx <= s[d] as nat
        invariant hit == |ProfPrefix(s, d, idx)|
        invariant profIdx < 0 || hit <= profIdx
      {
        if ItemType(s, d, idx) == DscProfile {
          if profIdx == hit {
            ProfPrefixGrows(s, d, idx + 1, s[d] as nat);
            return Some(ItemOffset(s, d, idx));
          }
          hit := hit + 1;
        }
        idx := idx + 1;
      }
    }
  }

  /** The loader's sanity checks on the container header, in order: length,
      a non-zero `PM` id, a non-zero data size and sub-version "01". */
  predicate Accepted(cnt: seq<byte>, length: int)
    requires |cnt| >= HeaderSize
  {
    length <= MaxCntLength &&
    Hdr(cnt[0], cnt[1]) != 0 &&
    Hdr(cnt[0], cnt[1]) == ParamsHdr &&
    U32LE(cnt, 6) != 0 &&
    cnt[5] == '1' as byte && cnt[4] == '0' as byte
  }

  /** The source's fixed-size tables hold the index of this container: at
      most four devices with at most sixteen profiles each. */
  predicate Cacheable(s: seq<byte>)
  {
    WellFormed(s) && Ndev(s) <= MaxDevs &&
    forall i :: 0 <= i < Ndev(s) ==> |ProfileOffsets(s, i)| <= MaxProfs
  }

  /** The container globals of the tool. */
  class ContainerCache {
    var cont: Option<seq<byte>>  // g_cont
    var devs: int                // g_devs
    const dev: array<Option<nat>>   // g_dev[TFACONT_MAXDEVS]
    const profs: array<int>         // g_profs[TFACONT_MAXDEVS]
    const prof: array2<Option<nat>> // g_prof[TFACONT_MAXDEVS][TFACONT_MAXPROFS]

    ghost predicate Valid()
      reads this, profs
    {
      dev.Length == MaxDevs && profs.Length == MaxDevs &&
      prof.Length0 == MaxDevs && prof.Length1 == MaxProfs &&
      devs <= MaxDevs &&
      (cont.Some? ==> |cont.value| >= HeaderSize) &&
      forall i :: 0 <= i < MaxDevs ==> 0 <= profs[i] <= MaxProfs
    }

    /** The cache describes container `s`. */
    ghost predicate Indexed(s: seq<byte>)
      reads this, dev, profs, prof
      requires Valid()
    {
      Cacheable(s) && devs == Ndev(s) &&
      (forall i :: 0 <= i < devs ==> dev[i] == DevList(s, i) && profs[i] == |ProfileOffsets(s, i)|) &&
      (forall i, j :: 0 <= i < devs && 0 <= j < profs[i] ==> prof[i, j] == Some(ProfileOffsets(s, i)[j]))
    }

    /** The static initial state: no container, `g_devs` is -1. */
    constructor ()
      ensures Valid() && cont == None && devs == -1
      ensures fresh(dev) && fresh(profs) && fresh(prof)
    {
      cont := None;
      devs := -1;
      dev := new Option<nat>[MaxDevs](_ => None);
      profs := new int[MaxDevs](_ => 0);
      prof := new Option<nat>[MaxDevs, MaxProfs]((_, _) => None);
    }

    /** `cont_get_devs`: cache the device lists and, per device, its profile
        lists. Entries past `ndev` keep their old values. */
    method GetDevs(s: seq<byte>)
      requires Valid() && Cacheable(s)
      modifies this`devs, dev, profs, prof
      ensures Valid() && Indexed(s)
      ensures cont == old(cont)
      ensures forall i :: Ndev(s) <= i < MaxDevs ==> dev[i] == old(dev[i]) && profs[i] == old(profs[i])
    {
      var ndev := Ndev(s);
      CacheDevices(s);
      devs := ndev;
      for i := 0 to devs
        invariant Valid()
        invariant forall k :: 0 <= k < devs ==> dev[k] == DevList(s, k)
        invariant forall k :: 0 <= k < i ==> profs[k] == |ProfileOffsets(s, k)|
        invariant forall k, j :: 0 <= k < i && 0 <= j < profs[k] ==> prof[k, j] == Some(ProfileOffsets(s, k)[j])
        invariant forall k :: ndev <= k < MaxDevs ==> profs[k] == old(profs[k])
        invariant devs == ndev && forall k :: ndev <= k < MaxDevs ==> dev[k] == old(dev[k])
      {
        ghost var before := profs[..];
        var count := CacheProfiles(s, i);
        profs[i] := count;
        assert profs[..] == before[i := count];
      }
    }

    /** The first loop of `cont_get_devs`: cache device list `i` for every
        `i` below `ndev`. */
    method CacheDevices(s: seq<byte>)
      requires Valid() && Cacheable(s)
      modifies dev
      ensures forall k :: 0 <= k < Ndev(s) ==> dev[k] == DevList(s, k)
      ensures forall k :: Ndev(s) <= k < MaxDevs ==> dev[k] == old(dev[k])
    {
      for i := 0 to Ndev(s)
        invariant forall k :: 0 <= k < i ==> dev[k] == DevList(s, k)
        invariant forall k :: Ndev(s) <= k < MaxDevs ==> dev[k] == old(dev[k])
      {
        dev[i] := DevList(s, i);
      }
    }

    /** The inner loop of `cont_get_devs`: ask for profile list `j` of device
        `i` until there is none, caching each one; the count is the number of
        profile lists of the device. */
    method CacheProfiles(s: seq<byte>, i: int) returns (count: int)
      requires Valid() && Cacheable(s) && 0 <= i < Ndev(s)
      modifies prof
      ensures count == |ProfileOffsets(s, i)|
      ensures forall m :: 0 <= m < count ==> prof[i, m] == Some(ProfileOffsets(s, i)[m])
      ensures forall k, m :: 0 <= k < MaxDevs && k != i && 0 <= m < MaxProfs ==> prof[k, m] == old(prof[k, m])
    {
      var j := 0;
      count := 0;
      var p := GetDevProfList(s, i, j);
      while p.Some?
        invariant j == count && j <= |ProfileOffsets(s, i)|
        invariant p == ProfileAt(s, i, j)
        invariant forall m :: 0 <= m < j ==> prof[i, m] == Some(ProfileOffsets(s, i)[m])
        invariant forall k, m :: 0 <= k < MaxDevs && k != i && 0 <= m < MaxProfs ==> prof[k, m] == old(prof[k, m])
        decreases |ProfileOffsets(s, i)| - j
      {
        count := count + 1;
        prof[i, j] := p;
        j := j + 1;
        p := GetDevProfList(s, i, j);
      }
    }

    /** `tfa_load_cnt`: check the header and, when it is accepted, make `cnt`
        the current container and index it. A rejected container leaves no
        current container but keeps the old index tables. */
    method LoadCnt(cnt: seq<byte>, length: int) returns (err: TfaError)
      requires Valid() && |cnt| >= HeaderSize
      requires Accepted(cnt, length) ==> Cacheable(cnt)
      modifies this, dev, profs, prof
      ensures Valid()
      ensures err == TfaErrorOk <==> Accepted(cnt, length)
      ensures err == TfaErrorOk ==> cont == Some(cnt) && Indexed(cnt)
      ensures err != TfaErrorOk ==> cont == None && devs == old(devs)
      ensures err != TfaErrorOk ==> unchanged(dev, profs, prof)
    {
      cont := None;
      if length > MaxCntLength {
        return TfaErrorContainer;
      }
      if Hdr(cnt[0], cnt[1]) == 0 {
        return TfaErrorContainer;
      }
      if Hdr(cnt[0], cnt[1]) != ParamsHdr {
        return TfaErrorContainer;
      }
      if U32LE(cnt, 6) == 0 {
        return TfaErrorContainer;
      }
      if cnt[5] == '1' as byte && cnt[4] == '0' as byte {
        cont := Some(cnt);
        GetDevs(cnt);
      } else {
        return TfaErrorContainer;
      }
      return TfaErrorOk;
    }

    /** `tfa_cont_device`: the cached device list `devIdx`, NULL past `g_devs`. */
    function Device(devIdx: int): Option<nat>
      requires Valid() && 0 <= devIdx
      reads this, dev, profs
    {
      if devIdx < devs then dev[devIdx] else None
    }

    /** `tfa_cont_profile`: the cached profile list, NULL when the device or
        the profile index is past the cached counts. */
    function Profile(devIdx: int, profIdx: int): Option<nat>
      requires Valid() && 0 <= devIdx && 0 <= profIdx
      reads this, profs, prof
    {
      if devIdx >= devs then None
      else if profIdx >= profs[devIdx] then None
      else prof[devIdx, profIdx]
    }

    /** `tfa98xx_cnt_max_device`: the number of devices, clamped to the table size. */
    function MaxDevice(): (r: int)
      requires Valid()
      reads this, profs
      ensures 0 <= r <= MaxDevs
      ensures cont.None? ==> r == 0
      ensures cont.Some? ==> r == Min(Ndev(cont.value), MaxDevs)
    {
      match cont
      case None => 0
      case Some(s) => if Ndev(s) < MaxDevs then Ndev(s) else MaxDevs
    }
  }

  /** After loading, the cache answers device queries from the container
      alone: the `i`-th device list is the index's, past `ndev` there is none. */
  lemma CachedDevice(c: ContainerCache, s: seq<byte>, i: int)
    requires c.Valid() && c.Indexed(s) && 0 <= i
    ensures c.Device(i) == DevList(s, i)
  {
  }

  /** After loading, the cache answers profile queries from the container
      alone: the `j`-th profile list of device `i`, or none past its count. */
  lemma CachedProfile(c: ContainerCache, s: seq<byte>, i: int, j: int)
    requires c.Valid() && c.Indexed(s) && 0 <= i && 0 <= j
    ensures c.Profile(i, j) == (if i < Ndev(s) then ProfileAt(s, i, j) else None)
  {
  }
}
