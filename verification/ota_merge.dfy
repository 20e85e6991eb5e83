/** `ota_esphome_final_validate`: the `esphome` OTA entries that share a port are merged
    into one, after checking that they agree on version, id and password; entries of other
    platforms are kept as they are; the helper partition is validated on the result. */
module OtaMerge {
  import opened Base
  import opened OtaConfig
  import opened HelperPartition

  type Port = Option<int>

  /** `merge_config`, which this model does not look into: the entry merged so far and the
      next one give the merged entry. */
  type Merge = (OtaConf, OtaConf) -> OtaConf

  /** The three checks made before merging `c` into the entry merged so far for its
      port, in the order they are made. */
  function Conflict(merged: OtaConf, c: OtaConf): (e: Option<ConfigError>)
    ensures e.None? <==>
              && merged.version == c.version
              && !(merged.idManual && c.idManual)
              && !(merged.password.Some? && c.password.Some? && merged.password.value != c.password.value)
    ensures merged.version != c.version ==> e == Some(VersionInconsistent)
    ensures merged.version == c.version && merged.idManual && c.idManual ==> e == Some(IdInconsistent)
    ensures merged.version == c.version && !(merged.idManual && c.idManual) &&
            merged.password.Some? && c.password.Some? && merged.password.value != c.password.value ==>
              e == Some(PasswordInconsistent)
    ensures e.Some? ==> e.value in {VersionInconsistent, IdInconsistent, PasswordInconsistent}
  {
    if merged.version != c.version then Some(VersionInconsistent)
    else if merged.idManual && c.idManual then Some(IdInconsistent)
    else if merged.password.Some? && c.password.Some? && merged.password.value != c.password.value then
      Some(PasswordInconsistent)
    else None
  }

  // ---------------------------------------------------------------- the pass

  /** The loop's state: `new_ota_conf` so far, the ports in the order the dict first saw
      them, and the dict itself. */
  datatype Pass = Pass(others: seq<OtaConf>, order: seq<Port>, merged: map<Port, OtaConf>)

  /** The dict's keys are exactly the ports in `order`. */
  ghost predicate Indexed(p: Pass)
  {
    forall q :: q in p.merged <==> q in p.order
  }

  /** The loop from entry `i` on. */
  function MergeFrom(confs: seq<OtaConf>, i: nat, acc: Pass, merge: Merge): (r: Result<Pass, ConfigError>)
    requires i <= |confs| && Indexed(acc)
    ensures r.Success? ==> Indexed(r.value)
    ensures r.Failure? ==> r.error in {VersionInconsistent, IdInconsistent, PasswordInconsistent}
    decreases |confs| - i
  {
    if i == |confs| then Success(acc)
    else
      var c := confs[i];
      if !IsEsphome(c) then
        MergeFrom(confs, i + 1, acc.(others := acc.others + [c]), merge)
      else if c.port !in acc.merged then
        MergeFrom(confs, i + 1, acc.(order := acc.order + [c.port], merged := acc.merged[c.port := c]), merge)
      else
        match Conflict(acc.merged[c.port], c)
        case Some(e) => Failure(e)
        case None =>
          MergeFrom(confs, i + 1, acc.(merged := acc.merged[c.port := merge(acc.merged[c.port], c)]), merge)
  }

  /** `new_ota_conf` after `extend(...values())`: the other entries, then the dict's values
      in insertion order. */
  function Emit(p: Pass): seq<OtaConf>
    requires Indexed(p)
  {
    p.others + seq(|p.order|, k requires 0 <= k < |p.order| => p.merged[p.order[k]])
  }

  /** The merge part of `ota_esphome_final_validate`: the new `ota:` list, or the first
      conflict met. */
  function MergeByPort(confs: seq<OtaConf>, merge: Merge): (r: Result<seq<OtaConf>, ConfigError>)
    ensures r.Failure? ==> r.error in {VersionInconsistent, IdInconsistent, PasswordInconsistent}
  {
    match MergeFrom(confs, 0, Pass([], [], map[]), merge)
    case Failure(e) => Failure(e)
    case Success(p) => Success(Emit(p))
  }

  // ---------------------------------------------------------------- what the pass computes

  function Last(cs: seq<OtaConf>): OtaConf
    requires cs != []
  {
    cs[|cs| - 1]
  }

  function Init(cs: seq<OtaConf>): seq<OtaConf>
    requires cs != []
  {
    cs[..|cs| - 1]
  }

  /** The entries of other platforms, in order. */
  function NonEsphome(cs: seq<OtaConf>): seq<OtaConf>
  {
    if cs == [] then []
    else NonEsphome(Init(cs)) + (if IsEsphome(Last(cs)) then [] else [Last(cs)])
  }

  /** The `esphome` entries on `port`, in order. */
  function Group(cs: seq<OtaConf>, port: Port): seq<OtaConf>
  {
    if cs == [] then []
    else Group(Init(cs), port) + (if IsEsphome(Last(cs)) && Last(cs).port == port then [Last(cs)] else [])
  }

  /** The ports of the `esphome` entries, each once, in order of first appearance. */
  function FirstSeenPorts(cs: seq<OtaConf>): (seen: seq<Port>)
    ensures forall q :: q in seen ==> Group(cs, q) != []
  {
    if cs == [] then []
    else
      var seen := FirstSeenPorts(Init(cs));
      if IsEsphome(Last(cs)) && Last(cs).port !in seen then seen + [Last(cs).port] else seen
  }

  /** A group merged left to right. */
  function MergeAll(g: seq<OtaConf>, merge: Merge): OtaConf
    requires g != []
  {
    if |g| == 1 then g[0] else merge(MergeAll(Init(g), merge), Last(g))
  }

  /** Every entry of the group agrees with the merge of the entries before it. */
  predicate Consistent(g: seq<OtaConf>, merge: Merge)
  {
    |g| <= 1 || (Consistent(Init(g), merge) && Conflict(MergeAll(Init(g), merge), Last(g)).None?)
  }

  /** Every port's group is consistent. */
  predicate AllConsistent(cs: seq<OtaConf>, merge: Merge)
  {
    forall q :: q in FirstSeenPorts(cs) ==> Consistent(Group(cs, q), merge)
  }

  /** The list the merge should produce when every group is consistent. */
  function Expected(cs: seq<OtaConf>, merge: Merge): seq<OtaConf>
  {
    var order := FirstSeenPorts(cs);
    NonEsphome(cs) + seq(|order|, k requires 0 <= k < |order| => MergeAll(Group(cs, order[k]), merge))
  }

  /** A port has entries exactly when it has been seen, and it is seen once. */
  lemma {:induction false} SeenIffGrouped(cs: seq<OtaConf>, q: Port)
    ensures Group(cs, q) != [] <==> q in FirstSeenPorts(cs)
  {
    if cs != [] {
      SeenIffGrouped(Init(cs), q);
    }
  }

  predicate Distinct(ports: seq<Port>)
  {
    forall j, k :: 0 <= j < k < |ports| ==> ports[j] != ports[k]
  }

  /** No port is listed twice. */
  lemma {:induction false} FirstSeenDistinct(cs: seq<OtaConf>)
    ensures Distinct(FirstSeenPorts(cs))
  {
    if cs != [] {
      FirstSeenDistinct(Init(cs));
      var seen := FirstSeenPorts(Init(cs));
      var s := FirstSeenPorts(cs);
      forall j, k | 0 <= j < k < |s|
        ensures s[j] != s[k]
      {
        if IsEsphome(Last(cs)) && Last(cs).port !in seen {
          assert s == seen + [Last(cs).port];
          assert s[j] == seen[j];
          if k < |seen| {
            assert s[k] == seen[k] && seen[j] != seen[k];
          } else {
            assert seen[j] in seen;
          }
        } else {
          assert s == seen;
          assert seen[j] != seen[k];
        }
      }
    }
  }

  /** Adding one entry to the group: the longer group is consistent exactly when the
      shorter one is and the new entry agrees with the shorter one's merge. */
  lemma ConsistentSnoc(g: seq<OtaConf>, c: OtaConf, merge: Merge)
    requires g != []
    ensures Consistent(g + [c], merge) <==>
              Consistent(g, merge) && Conflict(MergeAll(g, merge), c).None?
  {
    assert Init(g + [c]) == g && Last(g + [c]) == c;
  }

  /** A group is consistent only if each of its prefixes is. */
  lemma {:induction false} ConsistentPrefix(g: seq<OtaConf>, h: seq<OtaConf>, merge: Merge)
    requires h <= g && Consistent(g, merge)
    ensures Consistent(h, merge)
    decreases |g|
  {
    if |h| < |g| && |g| > 1 {
      assert h <= Init(g);
      ConsistentPrefix(Init(g), h, merge);
    } else if |h| == |g| {
      assert h == g;
    }
  }

  /** Cutting the list cuts each group and keeps the ports seen. */
  lemma {:induction false} PrefixGroups(cs: seq<OtaConf>, n: nat, q: Port)
    requires n <= |cs|
    ensures Group(cs[..n], q) <= Group(cs, q)
    ensures q in FirstSeenPorts(cs[..n]) ==> q in FirstSeenPorts(cs)
    decreases |cs|
  {
    if n < |cs| {
      assert cs[..n] == Init(cs)[..n];
      PrefixGroups(Init(cs), n, q);
      SeenIffGrouped(cs[..n], q);
      SeenIffGrouped(cs, q);
    } else {
      assert cs[..n] == cs;
    }
  }

  /** The pass state after the first `i` entries, described without the loop. */
  ghost predicate Tracks(confs: seq<OtaConf>, i: nat, acc: Pass, merge: Merge)
    requires i <= |confs|
  {
    Describes(confs[..i], acc, merge)
  }

  /** One entry of the loop keeps `Tracks`, unless it is the one that fails. */
  lemma TracksStep(confs: seq<OtaConf>, i: nat, acc: Pass, merge: Merge)
    requires i < |confs| && Tracks(confs, i, acc, merge)
    ensures var c := confs[i];
      var pre := confs[..i + 1];
      if !IsEsphome(c) then
        Tracks(confs, i + 1, acc.(others := acc.others + [c]), merge)
      else if c.port !in acc.merged then
        Tracks(confs, i + 1, acc.(order := acc.order + [c.port], merged := acc.merged[c.port := c]), merge)
      else if Conflict(acc.merged[c.port], c).Some? then
        c.port in FirstSeenPorts(pre) && !Consistent(Group(pre, c.port), merge)
      else
        Tracks(confs, i + 1, acc.(merged := acc.merged[c.port := merge(acc.merged[c.port], c)]), merge)
  {
    var c := confs[i];
    assert confs[..i + 1] == confs[..i] + [c];
    SnocEntry(confs[..i], c);
    if !IsEsphome(c) {
      TracksOther(confs[..i], c, acc, merge);
    } else if c.port !in acc.merged {
      TracksNewPort(confs[..i], c, acc, merge);
    } else {
      TracksSamePort(confs[..i], c, acc, merge);
    }
  }

  /** What one more entry does to the descriptions: only its own port's group grows. */
  ghost predicate SnocFacts(pre: seq<OtaConf>, c: OtaConf)
  {
    && NonEsphome(pre + [c]) == NonEsphome(pre) + (if IsEsphome(c) then [] else [c])
    && (forall q :: Group(pre + [c], q) == Group(pre, q) + (if IsEsphome(c) && c.port == q then [c] else []))
    && FirstSeenPorts(pre + [c]) ==
         if IsEsphome(c) && c.port !in FirstSeenPorts(pre) then FirstSeenPorts(pre) + [c.port]
         else FirstSeenPorts(pre)
  }

  lemma SnocEntry(pre: seq<OtaConf>, c: OtaConf)
    ensures SnocFacts(pre, c)
  {
    assert Init(pre + [c]) == pre && Last(pre + [c]) == c;
  }

  /** The pass state after `pre`, described without the loop. */
  ghost predicate Describes(pre: seq<OtaConf>, acc: Pass, merge: Merge)
  {
    && acc.others == NonEsphome(pre)
    && acc.order == FirstSeenPorts(pre)
    && Indexed(acc)
    && MapDescribes(pre, acc.merged, merge)
    && AllConsistent(pre, merge)
  }

  /** Each port in the dict holds the merge of that port's group. */
  ghost predicate MapDescribes(pre: seq<OtaConf>, m: map<Port, OtaConf>, merge: Merge)
  {
    forall q :: q in m ==> Group(pre, q) != [] && m[q] == MergeAll(Group(pre, q), merge)
  }

  /** An entry of another platform joins the others and changes nothing else. */
  lemma TracksOther(pre: seq<OtaConf>, c: OtaConf, acc: Pass, merge: Merge)
    requires Describes(pre, acc, merge) && SnocFacts(pre, c) && !IsEsphome(c)
    ensures Describes(pre + [c], acc.(others := acc.others + [c]), merge)
  {
    forall q ensures Group(pre + [c], q) == Group(pre, q) {
      assert Group(pre, q) + [] == Group(pre, q);
    }
  }

  /** An entry on a port not seen yet opens that port with itself. */
  lemma TracksNewPort(pre: seq<OtaConf>, c: OtaConf, acc: Pass, merge: Merge)
    requires Describes(pre, acc, merge) && SnocFacts(pre, c) && IsEsphome(c) && c.port !in acc.merged
    ensures Describes(pre + [c], acc.(order := acc.order + [c.port], merged := acc.merged[c.port := c]), merge)
  {
    var p, pre' := c.port, pre + [c];
    SeenIffGrouped(pre, p);
    assert Group(pre, p) == [];
    assert Group(pre', p) == [c];
    forall q | q != p ensures Group(pre', q) == Group(pre, q) {
      assert Group(pre, q) + [] == Group(pre, q);
    }
    forall q | q in FirstSeenPorts(pre')
      ensures Consistent(Group(pre', q), merge)
    {
      if q != p {
        assert q in FirstSeenPorts(pre);
      }
    }
  }

  /** An entry on a port already seen: a conflict with that port's merge makes the port's
      group inconsistent; otherwise the entry is merged in. */
  lemma TracksSamePort(pre: seq<OtaConf>, c: OtaConf, acc: Pass, merge: Merge)
    requires Describes(pre, acc, merge) && SnocFacts(pre, c) && IsEsphome(c) && c.port in acc.merged
    ensures Conflict(acc.merged[c.port], c).Some? ==>
              c.port in FirstSeenPorts(pre + [c]) && !Consistent(Group(pre + [c], c.port), merge)
    ensures Conflict(acc.merged[c.port], c).None? ==>
              Describes(pre + [c], acc.(merged := acc.merged[c.port := merge(acc.merged[c.port], c)]), merge)
  {
    var p := c.port;
    var g := Group(pre, p);
    assert g != [] && acc.merged[p] == MergeAll(g, merge);
    assert Group(pre + [c], p) == g + [c];
    ConsistentSnoc(g, c, merge);
    SeenIffGrouped(pre, p);
    if Conflict(acc.merged[p], c).None? {
      TracksMerged(pre, c, acc, merge);
    }
  }

  /** An entry that agrees with its port's merge so far is merged into it. */
  lemma TracksMerged(pre: seq<OtaConf>, c: OtaConf, acc: Pass, merge: Merge)
    requires Describes(pre, acc, merge) && SnocFacts(pre, c) && IsEsphome(c) && c.port in acc.merged
    requires c.port in FirstSeenPorts(pre)
    requires Consistent(Group(pre + [c], c.port), merge)
    ensures Describes(pre + [c], acc.(merged := acc.merged[c.port := merge(acc.merged[c.port], c)]), merge)
  {
    var pre' := pre + [c];
    assert NonEsphome(pre') == NonEsphome(pre) + [];
    MergedMap(pre, c, acc.merged, merge);
    MergedConsistent(pre, c, merge);
  }

  /** Merging the entry into its port's dict value keeps the dict described. */
  lemma MergedMap(pre: seq<OtaConf>, c: OtaConf, m: map<Port, OtaConf>, merge: Merge)
    requires MapDescribes(pre, m, merge) && SnocFacts(pre, c) && IsEsphome(c) && c.port in m
    ensures MapDescribes(pre + [c], m[c.port := merge(m[c.port], c)], merge)
  {
    var p, pre' := c.port, pre + [c];
    var g := Group(pre, p);
    assert Group(pre', p) == g + [c];
    assert Init(g + [c]) == g && Last(g + [c]) == c;
    assert g != [] && m[p] == MergeAll(g, merge);
    assert MergeAll(g + [c], merge) == merge(MergeAll(g, merge), c);
    var m' := m[p := merge(m[p], c)];
    forall q | q in m'
      ensures Group(pre', q) != [] && m'[q] == MergeAll(Group(pre', q), merge)
    {
      if q != p {
        assert Group(pre, q) + [] == Group(pre, q);
        assert Group(pre', q) == Group(pre, q);
      }
    }
  }

  /** The entry's port stays consistent by hypothesis, and every other group is as
      before. */
  lemma MergedConsistent(pre: seq<OtaConf>, c: OtaConf, merge: Merge)
    requires AllConsistent(pre, merge) && SnocFacts(pre, c) && IsEsphome(c)
    requires c.port in FirstSeenPorts(pre)
    requires Consistent(Group(pre + [c], c.port), merge)
    ensures AllConsistent(pre + [c], merge)
  {
    var pre' := pre + [c];
    assert FirstSeenPorts(pre') == FirstSeenPorts(pre);
    forall q | q in FirstSeenPorts(pre)
      ensures Consistent(Group(pre', q), merge)
    {
      if q != c.port {
        assert Group(pre, q) + [] == Group(pre, q);
        assert Group(pre', q) == Group(pre, q);
      }
    }
  }

  /** The pass against the description: it succeeds exactly when every group is
      consistent, and then ends in the described state. */
  lemma {:induction false} MergeFromSpec(confs: seq<OtaConf>, i: nat, acc: Pass, merge: Merge)
    requires i <= |confs| && Tracks(confs, i, acc, merge)
    ensures MergeFrom(confs, i, acc, merge).Success? <==> AllConsistent(confs, merge)
    ensures MergeFrom(confs, i, acc, merge).Success? ==> Tracks(confs, |confs|, MergeFrom(confs, i, acc, merge).value, merge)
    decreases |confs| - i
  {
    if i == |confs| {
      assert confs[..i] == confs;
    } else {
      var c := confs[i];
      TracksStep(confs, i, acc, merge);
      if !IsEsphome(c) {
        MergeFromSpec(confs, i + 1, acc.(others := acc.others + [c]), merge);
      } else if c.port !in acc.merged {
        MergeFromSpec(confs, i + 1, acc.(order := acc.order + [c.port], merged := acc.merged[c.port := c]), merge);
      } else if Conflict(acc.merged[c.port], c).Some? {
        var p := c.port;
        PrefixGroups(confs, i + 1, p);
        if AllConsistent(confs, merge) {
          ConsistentPrefix(Group(confs, p), Group(confs[..i + 1], p), merge);
        }
      } else {
        MergeFromSpec(confs, i + 1, acc.(merged := acc.merged[c.port := merge(acc.merged[c.port], c)]), merge);
      }
    }
  }

  /** The merge succeeds exactly when, for every port, each `esphome` entry on it agrees on
      version, manual id and password with the merge of the earlier ones; the result is
      then the entries of other platforms followed by one merged entry per port, in the
      order the ports first appear. */
  lemma MergeByPortSpec(confs: seq<OtaConf>, merge: Merge)
    ensures MergeByPort(confs, merge).Success? <==> AllConsistent(confs, merge)
    ensures MergeByPort(confs, merge).Success? ==> MergeByPort(confs, merge).value == Expected(confs, merge)
  {
    assert confs[..0] == [];
    var init := Pass([], [], map[]);
    assert Tracks(confs, 0, init, merge);
    MergeFromSpec(confs, 0, init, merge);
    var r := MergeFrom(confs, 0, init, merge);
    if r.Success? {
      assert confs[..|confs|] == confs;
      var p := r.value;
      var order := FirstSeenPorts(confs);
      forall k | 0 <= k < |order|
        ensures p.merged[p.order[k]] == MergeAll(Group(confs, order[k]), merge)
      {
      }
    }
  }

  /** With every `esphome` entry on its own port nothing is merged: the list is the other
      entries followed by the `esphome` ones, in their original order. */
  lemma DistinctPortsUnmerged(confs: seq<OtaConf>, merge: Merge)
    requires forall j, k :: 0 <= j < k < |confs| && IsEsphome(confs[j]) && IsEsphome(confs[k]) ==>
               confs[j].port != confs[k].port
    ensures MergeByPort(confs, merge).Success?
    ensures MergeByPort(confs, merge).value == NonEsphome(confs) + Esphome(confs)
  {
    GroupsSingle(confs);
    MergeByPortSpec(confs, merge);
    var order := FirstSeenPorts(confs);
    ExpectedSingles(confs, merge);
  }

  /** The `esphome` entries, in order. */
  function Esphome(cs: seq<OtaConf>): seq<OtaConf>
  {
    if cs == [] then [] else Esphome(Init(cs)) + (if IsEsphome(Last(cs)) then [Last(cs)] else [])
  }

  /** Distinct ports: every group is one entry long, and the ports follow the entries. */
  lemma {:induction false} GroupsSingle(cs: seq<OtaConf>)
    requires forall j, k :: 0 <= j < k < |cs| && IsEsphome(cs[j]) && IsEsphome(cs[k]) ==> cs[j].port != cs[k].port
    ensures forall q :: q in FirstSeenPorts(cs) ==> |Group(cs, q)| == 1
    ensures |FirstSeenPorts(cs)| == |Esphome(cs)|
    ensures forall k :: 0 <= k < |Esphome(cs)| ==> Group(cs, FirstSeenPorts(cs)[k]) == [Esphome(cs)[k]]
  {
    if cs != [] {
      var init, c := Init(cs), Last(cs);
      assert forall j, k :: 0 <= j < k < |init| && IsEsphome(init[j]) && IsEsphome(init[k]) ==>
               init[j].port != init[k].port by {
        forall j, k | 0 <= j < k < |init| ensures init[j] == cs[j] && init[k] == cs[k] { }
      }
      GroupsSingle(init);
      if IsEsphome(c) {
        SeenIffGrouped(init, c.port);
        forall j | 0 <= j < |init|
          ensures !(IsEsphome(init[j]) && init[j].port == c.port)
        {
          assert init[j] == cs[j] && c == cs[|cs| - 1];
        }
        GroupEmpty(init, c.port);
      }
    }
  }

  /** A port no `esphome` entry uses has an empty group. */
  lemma {:induction false} GroupEmpty(cs: seq<OtaConf>, q: Port)
    requires forall j :: 0 <= j < |cs| ==> !(IsEsphome(cs[j]) && cs[j].port == q)
    ensures Group(cs, q) == []
  {
    if cs != [] {
      GroupEmpty(Init(cs), q);
    }
  }

  /** With one-entry groups the expected list is the entries as they are. */
  lemma ExpectedSingles(cs: seq<OtaConf>, merge: Merge)
    requires |FirstSeenPorts(cs)| == |Esphome(cs)|
    requires forall k :: 0 <= k < |Esphome(cs)| ==> Group(cs, FirstSeenPorts(cs)[k]) == [Esphome(cs)[k]]
    ensures Expected(cs, merge) == NonEsphome(cs) + Esphome(cs)
  {
  }

  /** `merge_config` keeps a value both entries agree on, here the port. */
  ghost predicate KeepsPort(merge: Merge)
  {
    forall a: OtaConf, b: OtaConf :: a.port == b.port ==> merge(a, b).port == a.port
  }

  /** Every entry of a port's group is on that port. */
  lemma {:induction false} GroupOnPort(cs: seq<OtaConf>, q: Port)
    ensures forall k :: 0 <= k < |Group(cs, q)| ==> Group(cs, q)[k].port == q
  {
    if cs != [] {
      GroupOnPort(Init(cs), q);
    }
  }

  /** A group merged is still on the group's port. */
  lemma {:induction false} MergeAllOnPort(g: seq<OtaConf>, q: Port, merge: Merge)
    requires g != [] && KeepsPort(merge)
    requires forall k :: 0 <= k < |g| ==> g[k].port == q
    ensures MergeAll(g, merge).port == q
  {
    if |g| > 1 {
      MergeAllOnPort(Init(g), q, merge);
    }
  }

  /** What the merge is for: after it, the merged entries sit on pairwise different ports,
      one for each port the `esphome` entries use. */
  lemma MergedPortsDistinct(confs: seq<OtaConf>, merge: Merge)
    requires KeepsPort(merge)
    requires MergeByPort(confs, merge).Success?
    ensures var out := MergeByPort(confs, merge).value;
      var n := |NonEsphome(confs)|;
      && |out| == n + |FirstSeenPorts(confs)|
      && (forall k :: n <= k < |out| ==> out[k].port == FirstSeenPorts(confs)[k - n])
      && (forall j, k :: n <= j < k < |out| ==> out[j].port != out[k].port)
  {
    MergeByPortSpec(confs, merge);
    FirstSeenDistinct(confs);
    var order := FirstSeenPorts(confs);
    forall k | 0 <= k < |order|
      ensures MergeAll(Group(confs, order[k]), merge).port == order[k]
    {
      GroupOnPort(confs, order[k]);
      MergeAllOnPort(Group(confs, order[k]), order[k], merge);
    }
  }

  // ---------------------------------------------------------------- final validation

  /** `ota_esphome_final_validate`: merge, then validate the helper partition on the
      merged list; a merge conflict is reported before any helper problem. */
  function FinalValidate(confs: seq<OtaConf>, env: BuildEnv, merge: Merge): (r: Result<(seq<OtaConf>, HelperPlan), ConfigError>)
    ensures MergeByPort(confs, merge).Failure? ==> r == Failure(MergeByPort(confs, merge).error)
    ensures r.Success? ==> r.value.0 == MergeByPort(confs, merge).value
                           && Success(r.value.1) == ValidateHelperPartition(r.value.0, env)
    ensures MergeByPort(confs, merge).Success? ==>
              var v := ValidateHelperPartition(MergeByPort(confs, merge).value, env);
              && (v.Failure? ==> r == Failure(v.error))
              && (v.Success? ==> r == Success((MergeByPort(confs, merge).value, v.value)))
  {
    match MergeByPort(confs, merge)
    case Failure(e) => Failure(e)
    case Success(merged) =>
      match ValidateHelperPartition(merged, env)
      case Failure(e) => Failure(e)
      case Success(plan) => Success((merged, plan))
  }
}
