/** The volume rewrite: `is_valid_volume`, `convert_volume_to_glusterfs` and
    the loop over the `volumes` section in `process_stack_file`. */
module Volumes {
  import opened Text
  import opened Yaml

  /** The cluster settings fixed at the top of the script: the GlusterFS
      nodes, in order, and the base path every node serves. */
  datatype Cluster = Cluster(nodes: seq<string>, basePath: string)

  const DefaultCluster := Cluster(["172.30.230.1", "172.30.230.2", "172.30.230.3"], "/data/gluster")

  const Driver := "glusterfs"
  const Replicate := "3"
  const ReadOnly := "false"

  /** The option keys the conversion writes into `driver_opts`. */
  const GlusterKeys: set<string> := {"voluri", "replicate", "read-only"}

  /** The order in which the conversion assigns them. */
  const GlusterOrder: seq<string> := ["voluri", "replicate", "read-only"]

  /** The order in which the conversion assigns the configuration's keys. */
  const ConfigOrder: seq<string> := ["driver", "driver_opts"]

  /** The exceptions the rewrite can raise. None of them is caught: each one
      ends the whole run. */
  datatype Failure =
    /** `volumes` holds something other than a mapping, `""` or `[]`: `for
        name in volumes` raises on None or a non-string scalar (line 190); on
        a non-empty string or list, `volumes[name]` (line 191) or
        `is_valid_volume` (line 52) raises. */
    | VolumesNotMapping
    | ConfigNotMapping(volume: string)   // `CommentedMap(config)` rejects the configuration
    | DriverOptsNotMapping(volume: string) // `CommentedMap(driver_opts)` rejects the options

  datatype Result<T> = Ok(value: T) | Err(failure: Failure)

  // ---------------------------------------------------------------------
  // is_valid_volume
  // ---------------------------------------------------------------------

  /** The character class `[A-Za-z0-9-_]`. */
  predicate IsVolumeNameChar(c: char)
  {
    ('A' <= c <= 'Z') || ('a' <= c <= 'z') || ('0' <= c <= '9') || c == '-' || c == '_'
  }

  /** Length of the greedy match of `[A-Za-z0-9-_]+` at the start of `s`;
      0 when `re.match` finds nothing. */
  function NameMatchLength(s: string): (n: nat)
    ensures n <= |s|
    ensures forall k :: 0 <= k < n ==> IsVolumeNameChar(s[k])
    ensures n < |s| ==> !IsVolumeNameChar(s[n])
    decreases |s|
  {
    if |s| == 0 || !IsVolumeNameChar(s[0]) then 0
    else 1 + NameMatchLength(s[1..])
  }

  /** `bool(volume_pattern.match(name))`: the match is anchored at the start
      only, so a name is accepted exactly when its first character is in the
      class, whatever follows. */
  function IsValidVolume(name: string): (valid: bool)
    ensures valid <==> |name| > 0 && IsVolumeNameChar(name[0])
  {
    NameMatchLength(name) > 0
  }

  lemma ValidVolumeExamples()
    ensures IsValidVolume("data1") && IsValidVolume("ab$%")
    ensures !IsValidVolume("$ab") && !IsValidVolume("")
  {
  }

  // ---------------------------------------------------------------------
  // voluri
  // ---------------------------------------------------------------------

  /** `','.join([f"{node}:{base}" for node in nodes])`. */
  function VolUri(cluster: Cluster): string
  {
    Join(",", seq(|cluster.nodes|, i requires 0 <= i < |cluster.nodes| =>
                    cluster.nodes[i] + ":" + cluster.basePath))
  }

  /** With comma-free node names and base path, `voluri` holds one
      `node:base` segment per node, in node order, separated by exactly
      `|nodes| - 1` commas. */
  lemma VolUriShape(cluster: Cluster)
    requires |cluster.nodes| > 0
    requires ',' !in cluster.basePath
    requires forall i :: 0 <= i < |cluster.nodes| ==> ',' !in cluster.nodes[i]
    ensures Count(',', VolUri(cluster)) == |cluster.nodes| - 1
    ensures |SplitOn(',', VolUri(cluster))| == |cluster.nodes|
    ensures forall i :: 0 <= i < |cluster.nodes| ==>
              SplitOn(',', VolUri(cluster))[i] == cluster.nodes[i] + ":" + cluster.basePath
  {
    var segments := seq(|cluster.nodes|, i requires 0 <= i < |cluster.nodes| =>
                          cluster.nodes[i] + ":" + cluster.basePath);
    forall i | 0 <= i < |segments|
      ensures ',' !in segments[i]
    {
      assert segments[i] == cluster.nodes[i] + (":" + cluster.basePath);
    }
    SplitJoin(',', segments);
    CountJoin(',', segments);
  }

  lemma DefaultVolUri()
    ensures VolUri(DefaultCluster)
         == "172.30.230.1:/data/gluster" + "," + "172.30.230.2:/data/gluster" + ","
          + "172.30.230.3:/data/gluster"
  {
    var c := DefaultCluster;
    var segments := seq(|c.nodes|, i requires 0 <= i < |c.nodes| => c.nodes[i] + ":" + c.basePath);
    var s0, s1, s2 := "172.30.230.1:/data/gluster", "172.30.230.2:/data/gluster",
                      "172.30.230.3:/data/gluster";
    assert segments[0] == s0 && segments[1] == s1 && segments[2] == s2;
    assert segments == [s0, s1, s2];
    assert segments[1..] == [s1, s2] && segments[1..][1..] == [s2];
    assert Join(",", [s1, s2]) == s1 + "," + s2;
    assert Join(",", segments) == s0 + "," + (s1 + "," + s2);
  }

  // ---------------------------------------------------------------------
  // convert_volume_to_glusterfs
  // ---------------------------------------------------------------------

  /** `CommentedMap(v)` for a value that is not a mapping already:
      `dict("")` and `dict([])` are empty; every other value raises. */
  function AsMapping(v: Value): Option<seq<Entry>>
  {
    match v
    case Map(entries) => Some(entries)
    case Str(text) => if text == "" then Some([]) else None
    case List(items) => if items == [] then Some([]) else None
    case _ => None
  }

  /** The mapping a volume's configuration is turned into before it is
      changed: `None` becomes an empty mapping. */
  function ConfigEntries(config: Value): Option<seq<Entry>>
  {
    if config.Null? then Some([]) else AsMapping(config)
  }

  /** `volume_config.get('driver_opts', CommentedMap())` made a mapping. A
      `driver_opts` key holding None is not replaced by the default. */
  function ExistingOptions(config: seq<Entry>): Option<seq<Entry>>
  {
    match Lookup(config, "driver_opts")
    case None => Some([])
    case Some(opts) => AsMapping(opts)
  }

  /** The driver options a converted configuration carries. */
  function OptionsOf(config: seq<Entry>): seq<Entry>
  {
    match Lookup(config, "driver_opts")
    case Some(Map(opts)) => opts
    case _ => []
  }

  /** A configuration that uses the GlusterFS driver with the cluster's
      options. */
  predicate IsGlusterConfig(config: seq<Entry>, cluster: Cluster)
  {
    && Lookup(config, "driver") == Some(Str(Driver))
    && Lookup(config, "driver_opts").Some?
    && Lookup(config, "driver_opts").value.Map?
    && Lookup(OptionsOf(config), "voluri") == Some(Str(VolUri(cluster)))
    && Lookup(OptionsOf(config), "replicate") == Some(Str(Replicate))
    && Lookup(OptionsOf(config), "read-only") == Some(Str(ReadOnly))
  }

  /** The three assignments into `driver_opts`. */
  function GlusterOptions(opts: seq<Entry>, cluster: Cluster): seq<Entry>
  {
    Assign(Assign(Assign(opts, "voluri", Str(VolUri(cluster))),
                  "replicate", Str(Replicate)),
           "read-only", Str(ReadOnly))
  }

  lemma GlusterOptionsLaws(opts: seq<Entry>, cluster: Cluster)
    ensures var r := GlusterOptions(opts, cluster);
      && Lookup(r, "voluri") == Some(Str(VolUri(cluster)))
      && Lookup(r, "replicate") == Some(Str(Replicate))
      && Lookup(r, "read-only") == Some(Str(ReadOnly))
      && Drop(r, GlusterKeys) == Drop(opts, GlusterKeys)
      && Keys(opts) <= Keys(r)
      && (forall i :: |opts| <= i < |r| ==> r[i].0 in GlusterKeys)
      && Keys(r) == Keys(opts) + NewKeys(GlusterOrder, Keys(opts))
      && (DistinctKeys(opts) ==> DistinctKeys(r))
  {
    var o1 := Assign(opts, "voluri", Str(VolUri(cluster)));
    var o2 := Assign(o1, "replicate", Str(Replicate));
    AssignLaws(opts, "voluri", Str(VolUri(cluster)));
    AssignLaws(o1, "replicate", Str(Replicate));
    AssignLaws(o2, "read-only", Str(ReadOnly));
    GlusterOptionsDrop(opts, cluster);
    GlusterOptionsKeys(opts, cluster);
  }

  /** The existing option keys keep their positions; only the three
      GlusterFS keys can be appended. */
  lemma GlusterOptionsKeys(opts: seq<Entry>, cluster: Cluster)
    ensures var r := GlusterOptions(opts, cluster);
      && Keys(opts) <= Keys(r)
      && forall i :: |opts| <= i < |r| ==> r[i].0 in GlusterKeys
    ensures Keys(GlusterOptions(opts, cluster)) == Keys(opts) + NewKeys(GlusterOrder, Keys(opts))
  {
    var o1 := Assign(opts, "voluri", Str(VolUri(cluster)));
    var o2 := Assign(o1, "replicate", Str(Replicate));
    var o3 := Assign(o2, "read-only", Str(ReadOnly));
    GlusterOrderKeys(opts, o1, o2, o3, cluster);
    AssignPrefix(opts, "voluri", Str(VolUri(cluster)));
    AssignPrefix(o1, "replicate", Str(Replicate));
    AssignPrefix(o2, "read-only", Str(ReadOnly));
    var k1, k2, k3 := Keys(o1), Keys(o2), Keys(o3);
    forall i | |opts| <= i < |o3|
      ensures o3[i].0 in GlusterKeys
    {
      if i < |o1| {
        assert k3[i] == k2[i] == k1[i];
      } else if i < |o2| {
        assert k3[i] == k2[i];
      }
    }
  }
  lemma GlusterOrderKeys(opts: seq<Entry>, o1: seq<Entry>, o2: seq<Entry>, o3: seq<Entry>, cluster: Cluster)
    requires o1 == Assign(opts, "voluri", Str(VolUri(cluster)))
    requires o2 == Assign(o1, "replicate", Str(Replicate))
    requires o3 == Assign(o2, "read-only", Str(ReadOnly))
    ensures Keys(o3) == Keys(opts) + NewKeys(GlusterOrder, Keys(opts))
  {
    var none: seq<string> := [];
    calc {
      Keys(o3);
      Keys(o3) + NewKeys(none, Keys(o3));
      { AssignThenKeys(o2, "read-only", Str(ReadOnly), none); assert ["read-only"] + none == ["read-only"]; }
      Keys(o2) + NewKeys(["read-only"], Keys(o2));
      { AssignThenKeys(o1, "replicate", Str(Replicate), ["read-only"]); }
      Keys(o1) + NewKeys(["replicate", "read-only"], Keys(o1));
      { AssignThenKeys(opts, "voluri", Str(VolUri(cluster)), ["replicate", "read-only"]); }
      Keys(opts) + NewKeys(GlusterOrder, Keys(opts));
    }
  }


  lemma GlusterOptionsDrop(opts: seq<Entry>, cluster: Cluster)
    ensures Drop(GlusterOptions(opts, cluster), GlusterKeys) == Drop(opts, GlusterKeys)
  {
    var o1 := Assign(opts, "voluri", Str(VolUri(cluster)));
    var o2 := Assign(o1, "replicate", Str(Replicate));
    var o3 := Assign(o2, "read-only", Str(ReadOnly));
    AssignDrop(opts, "voluri", Str(VolUri(cluster)));
    AssignDrop(o1, "replicate", Str(Replicate));
    AssignDrop(o2, "read-only", Str(ReadOnly));
    assert {"read-only"} + {"voluri", "replicate"} == GlusterKeys;
    assert {"replicate"} + {"voluri", "read-only"} == GlusterKeys;
    assert {"voluri"} + {"replicate", "read-only"} == GlusterKeys;
    calc {
      Drop(o3, GlusterKeys);
      { DropDrop(o3, {"read-only"}, {"voluri", "replicate"}); }
      Drop(Drop(o3, {"read-only"}), {"voluri", "replicate"});
      Drop(Drop(o2, {"read-only"}), {"voluri", "replicate"});
      { DropDrop(o2, {"read-only"}, {"voluri", "replicate"}); }
      Drop(o2, GlusterKeys);
      { DropDrop(o2, {"replicate"}, {"voluri", "read-only"}); }
      Drop(Drop(o2, {"replicate"}), {"voluri", "read-only"});
      Drop(Drop(o1, {"replicate"}), {"voluri", "read-only"});
      { DropDrop(o1, {"replicate"}, {"voluri", "read-only"}); }
      Drop(o1, GlusterKeys);
      { DropDrop(o1, {"voluri"}, {"replicate", "read-only"}); }
      Drop(Drop(o1, {"voluri"}), {"replicate", "read-only"});
      Drop(Drop(opts, {"voluri"}), {"replicate", "read-only"});
      { DropDrop(opts, {"voluri"}, {"replicate", "read-only"}); }
      Drop(opts, GlusterKeys);
    }
  }

  /** `convert_volume_to_glusterfs(name, config)` (see `ConvertVolumeLaw`). */
  function ConvertVolume(name: string, config: Value, cluster: Cluster): Result<Value>
  {
    match ConfigEntries(config)
    case None => Err(ConfigNotMapping(name))
    case Some(base) =>
      var withDriver := Assign(base, "driver", Str(Driver));
      match ExistingOptions(withDriver)
      case None => Err(DriverOptsNotMapping(name))
      case Some(opts) => Ok(Map(Converted(base, opts, cluster)))
  }

  /** The configuration `base` after `driver` and then `driver_opts`, built
      from the existing options `opts`, are assigned. */
  function Converted(base: seq<Entry>, opts: seq<Entry>, cluster: Cluster): seq<Entry>
  {
    Assign(Assign(base, "driver", Str(Driver)), "driver_opts", Map(GlusterOptions(opts, cluster)))
  }

  /** What the conversion promises. It fails exactly when the configuration,
      or its existing driver options, cannot be made a mapping. Otherwise the
      result uses the GlusterFS driver with the cluster's options; the
      existing keys keep their positions and only `driver` and then
      `driver_opts` are appended, when missing; and every other key keeps its
      value and relative order. `ConvertOptionsLaw` says the same inside
      `driver_opts`. */
  lemma ConvertVolumeLaw(name: string, config: Value, cluster: Cluster)
    ensures var r := ConvertVolume(name, config, cluster);
      r.Ok? <==> ConfigEntries(config).Some? && ExistingOptions(ConfigEntries(config).value).Some?
    ensures var r := ConvertVolume(name, config, cluster);
      r.Err? ==>
        r.failure == if ConfigEntries(config).None? then ConfigNotMapping(name) else DriverOptsNotMapping(name)
    ensures var r := ConvertVolume(name, config, cluster);
      r.Ok? ==> r.value.Map? && IsGlusterConfig(r.value.entries, cluster)
    ensures var r := ConvertVolume(name, config, cluster);
      r.Ok? ==>
        && Keys(ConfigEntries(config).value) <= Keys(r.value.entries)
        && forall i :: |ConfigEntries(config).value| <= i < |r.value.entries| ==>
             r.value.entries[i].0 in {"driver", "driver_opts"}
    ensures var r := ConvertVolume(name, config, cluster);
      r.Ok? ==>
        var base := ConfigEntries(config).value;
        && Keys(r.value.entries) == Keys(base) + NewKeys(ConfigOrder, Keys(base))
        && Drop(r.value.entries, {"driver", "driver_opts"}) == Drop(base, {"driver", "driver_opts"})
        && (DistinctKeys(base) ==> DistinctKeys(r.value.entries))
  {
    ConvertShape(name, config, cluster);
    if ConvertVolume(name, config, cluster).Ok? {
      var base := ConfigEntries(config).value;
      var opts := ExistingOptions(base).value;
      ConvertedIs(name, config, cluster, base, opts, ConvertVolume(name, config, cluster).value.entries);
    }
  }

  /** What the conversion does inside `driver_opts`: the existing options
      keep their positions, and only `voluri`, `replicate` and `read-only`
      are appended, in that order, when missing; every other option keeps its
      value and relative order; distinct keys stay distinct. */
  lemma ConvertOptionsLaw(name: string, config: Value, cluster: Cluster)
    requires ConfigEntries(config).Some? && ExistingOptions(ConfigEntries(config).value).Some?
    ensures ConvertVolume(name, config, cluster).Ok?
    ensures var before := ExistingOptions(ConfigEntries(config).value).value;
      var after := OptionsOf(ConvertVolume(name, config, cluster).value.entries);
      && Keys(before) <= Keys(after)
      && (forall i :: |before| <= i < |after| ==> after[i].0 in GlusterKeys)
      && Keys(after) == Keys(before) + NewKeys(GlusterOrder, Keys(before))
      && Drop(after, GlusterKeys) == Drop(before, GlusterKeys)
      && (DistinctKeys(before) ==> DistinctKeys(after))
  {
    ConvertShape(name, config, cluster);
    var base := ConfigEntries(config).value;
    var opts := ExistingOptions(base).value;
    ConvertedIs(name, config, cluster, base, opts, ConvertVolume(name, config, cluster).value.entries);
  }

  /** `ConvertVolumeLaw` for a conversion that succeeds, about the
      configuration it builds. */
  lemma ConvertedIs(name: string, config: Value, cluster: Cluster,
                    base: seq<Entry>, opts: seq<Entry>, converted: seq<Entry>)
    requires converted == Converted(base, opts, cluster)
    ensures IsGlusterConfig(converted, cluster)
    ensures Keys(base) <= Keys(converted)
    ensures forall i :: |base| <= i < |converted| ==> converted[i].0 in {"driver", "driver_opts"}
    ensures Drop(converted, {"driver", "driver_opts"}) == Drop(base, {"driver", "driver_opts"})
    ensures Drop(OptionsOf(converted), GlusterKeys) == Drop(opts, GlusterKeys)
    ensures Keys(opts) <= Keys(OptionsOf(converted))
    ensures forall i :: |opts| <= i < |OptionsOf(converted)| ==> OptionsOf(converted)[i].0 in GlusterKeys
    ensures Keys(OptionsOf(converted)) == Keys(opts) + NewKeys(GlusterOrder, Keys(opts))
    ensures Keys(converted) == Keys(base) + NewKeys(ConfigOrder, Keys(base))
    ensures DistinctKeys(base) ==> DistinctKeys(converted)
    ensures DistinctKeys(opts) ==> DistinctKeys(OptionsOf(converted))
  {
    ConvertedOkLaws(base, opts, cluster);
  }

  /** Which failure the conversion raises, and which configuration it builds
      otherwise. */
  lemma ConvertShape(name: string, config: Value, cluster: Cluster)
    ensures var r := ConvertVolume(name, config, cluster);
      r.Ok? <==> ConfigEntries(config).Some? && ExistingOptions(ConfigEntries(config).value).Some?
    ensures var r := ConvertVolume(name, config, cluster);
      r.Err? ==>
        r.failure == if ConfigEntries(config).None? then ConfigNotMapping(name) else DriverOptsNotMapping(name)
    ensures var r := ConvertVolume(name, config, cluster);
      r.Ok? ==>
        var base := ConfigEntries(config).value;
        r == Ok(Map(Converted(base, ExistingOptions(base).value, cluster)))
  {
    match ConfigEntries(config) {
      case None =>
      case Some(base) =>
        AssignLookup(base, "driver", Str(Driver));
        assert ExistingOptions(Assign(base, "driver", Str(Driver))) == ExistingOptions(base);
    }
  }

  /** The facts `ConvertVolumeLaw` states, about the configuration built
      from `base` and the existing options `opts`. */
  lemma ConvertedOkLaws(base: seq<Entry>, opts: seq<Entry>, cluster: Cluster)
    ensures var converted := Converted(base, opts, cluster);
      && IsGlusterConfig(converted, cluster)
      && Keys(base) <= Keys(converted)
      && (forall i :: |base| <= i < |converted| ==> converted[i].0 in {"driver", "driver_opts"})
      && Drop(converted, {"driver", "driver_opts"}) == Drop(base, {"driver", "driver_opts"})
      && Drop(OptionsOf(converted), GlusterKeys) == Drop(opts, GlusterKeys)
      && Keys(opts) <= Keys(OptionsOf(converted))
      && (forall i :: |opts| <= i < |OptionsOf(converted)| ==> OptionsOf(converted)[i].0 in GlusterKeys)
      && Keys(OptionsOf(converted)) == Keys(opts) + NewKeys(GlusterOrder, Keys(opts))
      && Keys(converted) == Keys(base) + NewKeys(ConfigOrder, Keys(base))
      && (DistinctKeys(base) ==> DistinctKeys(converted))
      && (DistinctKeys(opts) ==> DistinctKeys(OptionsOf(converted)))
  {
    var options := GlusterOptions(opts, cluster);
    var withDriver := Assign(base, "driver", Str(Driver));
    ConvertedLaws(base, withDriver, options, cluster);
    ConvertedOrder(base, withDriver, Converted(base, opts, cluster), options);
    GlusterOptionsLaws(opts, cluster);
  }

  /** The facts about the two top-level assignments that `ConvertVolumeLaw`
      needs. */
  lemma ConvertedLaws(base: seq<Entry>, withDriver: seq<Entry>, options: seq<Entry>, cluster: Cluster)
    requires withDriver == Assign(base, "driver", Str(Driver))
    ensures var converted := Assign(withDriver, "driver_opts", Map(options));
      && Lookup(converted, "driver") == Some(Str(Driver))
      && Lookup(converted, "driver_opts") == Some(Map(options))
      && OptionsOf(converted) == options
      && Keys(base) <= Keys(converted)
      && (forall i :: |base| <= i < |converted| ==> converted[i].0 in {"driver", "driver_opts"})
      && Drop(converted, {"driver", "driver_opts"}) == Drop(base, {"driver", "driver_opts"})
      && (DistinctKeys(base) ==> DistinctKeys(converted))
  {
    var converted := Assign(withDriver, "driver_opts", Map(options));
    AssignLookup(base, "driver", Str(Driver));
    AssignLookup(withDriver, "driver_opts", Map(options));
    ConvertedKeys(base, withDriver, converted, options);
    ConvertedDrop(base, withDriver, converted, options);
    if DistinctKeys(base) {
      AssignDistinct(base, "driver", Str(Driver));
      AssignDistinct(withDriver, "driver_opts", Map(options));
    }
  }

  lemma ConvertedKeys(base: seq<Entry>, withDriver: seq<Entry>, converted: seq<Entry>, options: seq<Entry>)
    requires withDriver == Assign(base, "driver", Str(Driver))
    requires converted == Assign(withDriver, "driver_opts", Map(options))
    ensures Keys(base) <= Keys(converted)
    ensures forall i :: |base| <= i < |converted| ==> converted[i].0 in {"driver", "driver_opts"}
  {
    AssignPrefix(base, "driver", Str(Driver));
    AssignPrefix(withDriver, "driver_opts", Map(options));
    var kb, kw, kc := Keys(base), Keys(withDriver), Keys(converted);
    forall i | |base| <= i < |converted|
      ensures converted[i].0 in {"driver", "driver_opts"}
    {
      if i < |withDriver| {
        assert kc[i] == kw[i];
      }
    }
  }

  lemma ConvertedOrder(base: seq<Entry>, withDriver: seq<Entry>, converted: seq<Entry>, options: seq<Entry>)
    requires withDriver == Assign(base, "driver", Str(Driver))
    requires converted == Assign(withDriver, "driver_opts", Map(options))
    ensures Keys(converted) == Keys(base) + NewKeys(ConfigOrder, Keys(base))
  {
    var none: seq<string> := [];
    calc {
      Keys(converted);
      Keys(converted) + NewKeys(none, Keys(converted));
      { AssignThenKeys(withDriver, "driver_opts", Map(options), none); assert ["driver_opts"] + none == ["driver_opts"]; }
      Keys(withDriver) + NewKeys(["driver_opts"], Keys(withDriver));
      { AssignThenKeys(base, "driver", Str(Driver), ["driver_opts"]); }
      Keys(base) + NewKeys(ConfigOrder, Keys(base));
    }
  }

  lemma ConvertedDrop(base: seq<Entry>, withDriver: seq<Entry>, converted: seq<Entry>, options: seq<Entry>)
    requires withDriver == Assign(base, "driver", Str(Driver))
    requires converted == Assign(withDriver, "driver_opts", Map(options))
    ensures Drop(converted, {"driver", "driver_opts"}) == Drop(base, {"driver", "driver_opts"})
  {
    AssignDrop(base, "driver", Str(Driver));
    AssignDrop(withDriver, "driver_opts", Map(options));
    var both := {"driver", "driver_opts"};
    assert {"driver_opts"} + {"driver"} == both;
    assert {"driver"} + {"driver_opts"} == both;
    calc {
      Drop(converted, both);
      { DropDrop(converted, {"driver_opts"}, {"driver"}); }
      Drop(Drop(converted, {"driver_opts"}), {"driver"});
      Drop(Drop(withDriver, {"driver_opts"}), {"driver"});
      { DropDrop(withDriver, {"driver_opts"}, {"driver"}); }
      Drop(withDriver, both);
      { DropDrop(withDriver, {"driver"}, {"driver_opts"}); }
      Drop(Drop(withDriver, {"driver"}), {"driver_opts"});
      Drop(Drop(base, {"driver"}), {"driver_opts"});
      { DropDrop(base, {"driver"}, {"driver_opts"}); }
      Drop(base, both);
    }
  }

  /** A configuration that is `None` becomes a mapping with only `driver`
      and the three driver options. */
  lemma ConvertNull(name: string, cluster: Cluster)
    ensures ConvertVolume(name, Null, cluster)
         == Ok(Map([("driver", Str(Driver)),
                    ("driver_opts", Map([("voluri", Str(VolUri(cluster))),
                                         ("replicate", Str(Replicate)),
                                         ("read-only", Str(ReadOnly))]))]))
  {
    var withDriver := Assign([], "driver", Str(Driver));
    assert withDriver == [("driver", Str(Driver))];
    assert ExistingOptions(withDriver) == Some([]);
    var e: seq<Entry> := [];
    var v1, v2, v3 := ("voluri", Str(VolUri(cluster))), ("replicate", Str(Replicate)),
                      ("read-only", Str(ReadOnly));
    AssignFresh(e, "voluri", v1.1);
    assert Keys([v1]) == ["voluri"];
    AssignFresh([v1], "replicate", v2.1);
    assert Keys([v1, v2]) == ["voluri", "replicate"];
    AssignFresh([v1, v2], "read-only", v3.1);
    assert GlusterOptions([], cluster) == [v1, v2, v3];
    assert Keys(withDriver) == ["driver"];
    AssignFresh(withDriver, "driver_opts", Map([v1, v2, v3]));
    assert ConfigEntries(Null) == Some(e);
    var opts := Map([v1, v2, v3]);
    calc {
      ConvertVolume(name, Null, cluster);
      Ok(Map(Assign(withDriver, "driver_opts", Map(GlusterOptions(e, cluster)))));
      Ok(Map(Assign(withDriver, "driver_opts", opts)));
      Ok(Map(withDriver + [("driver_opts", opts)]));
      { assert withDriver + [("driver_opts", opts)] == [("driver", Str(Driver))] + [("driver_opts", opts)]; }
      Ok(Map([("driver", Str(Driver))] + [("driver_opts", opts)]));
      { assert [("driver", Str(Driver))] + [("driver_opts", opts)] == [("driver", Str(Driver)), ("driver_opts", opts)]; }
      Ok(Map([("driver", Str(Driver)), ("driver_opts", opts)]));
    }
  }

  /** A configuration whose only key is `driver` converts as `None` does:
      the old driver is overwritten in place. */
  lemma ConvertDriverOnly(name: string, driver: Value, cluster: Cluster)
    ensures ConvertVolume(name, Map([("driver", driver)]), cluster) == ConvertVolume(name, Null, cluster)
  {
    var base: seq<Entry> := [("driver", driver)];
    AssignLaws(base, "driver", Str(Driver));
    assert Keys(base) == ["driver"];
    assert Assign(base, "driver", Str(Driver)) == [("driver", Str(Driver))];
    var e: seq<Entry> := [];
    assert Assign(e, "driver", Str(Driver)) == [("driver", Str(Driver))];
  }

  /** The worked example: `volumes: {data1: {driver: local}}` with the
      script's cluster settings. */
  lemma RewriteExample()
    ensures RewriteVolumes([("volumes", Map([("data1", Map([("driver", Str("local"))]))]))], DefaultCluster)
         == Ok([("volumes", Map([("data1", Map([
              ("driver", Str("glusterfs")),
              ("driver_opts", Map([
                 ("voluri", Str("172.30.230.1:/data/gluster" + "," + "172.30.230.2:/data/gluster" + ","
                                + "172.30.230.3:/data/gluster")),
                 ("replicate", Str("3")),
                 ("read-only", Str("false"))]))]))]))])
  {
    assert IsValidVolume("data1");
    ConvertExample();
    SingleVolume("data1", Map([("driver", Str("local"))]), DefaultCluster);
  }

  lemma ConvertExample()
    ensures ConvertVolume("data1", Map([("driver", Str("local"))]), DefaultCluster)
         == Ok(Map([
              ("driver", Str("glusterfs")),
              ("driver_opts", Map([
                 ("voluri", Str("172.30.230.1:/data/gluster" + "," + "172.30.230.2:/data/gluster" + ","
                                + "172.30.230.3:/data/gluster")),
                 ("replicate", Str("3")),
                 ("read-only", Str("false"))]))]))
  {
    ConvertDriverOnly("data1", Str("local"), DefaultCluster);
    ConvertNull("data1", DefaultCluster);
    DefaultVolUri();
  }

  /** A stack whose only entry is a `volumes` section with one valid volume. */
  lemma SingleVolume(name: string, config: Value, cluster: Cluster)
    requires IsValidVolume(name) && ConvertVolume(name, config, cluster).Ok?
    ensures RewriteVolumes([("volumes", Map([(name, config)]))], cluster)
         == Ok([("volumes", Map([(name, ConvertVolume(name, config, cluster).value)]))])
  {
    var converted := ConvertVolume(name, config, cluster).value;
    SingleEntry(name, config, converted, cluster);
    var stack: seq<Entry> := [("volumes", Map([(name, config)]))];
    assert Lookup(stack, "volumes") == Some(Map([(name, config)]));
    SingleAssign("volumes", Map([(name, config)]), Map([(name, converted)]));
  }

  lemma SingleEntry(name: string, config: Value, converted: Value, cluster: Cluster)
    requires IsValidVolume(name) && ConvertVolume(name, config, cluster) == Ok(converted)
    ensures ConvertEntries([(name, config)], cluster) == Ok([(name, converted)])
  {
    var volumes: seq<Entry> := [(name, config)];
    assert volumes[1..] == [];
    var none: seq<Entry> := [];
    assert ConvertEntries(none, cluster) == Ok(none);
    assert [(name, converted)] + none == [(name, converted)];
  }

  lemma SingleAssign(k: string, v: Value, w: Value)
    ensures Assign([(k, v)], k, w) == [(k, w)]
  {
    var e: seq<Entry> := [];
    assert [(k, w)] + e == [(k, w)];
  }

  /** Converting a converted configuration again changes nothing. */
  lemma ConvertIdempotent(name: string, config: Value, cluster: Cluster)
    requires ConvertVolume(name, config, cluster).Ok?
    ensures ConvertVolume(name, ConvertVolume(name, config, cluster).value, cluster)
         == ConvertVolume(name, config, cluster)
  {
    var v := ConvertVolume(name, config, cluster).value;
    ConvertVolumeLaw(name, config, cluster);
    ConvertedIsFixed(name, v.entries, cluster);
  }

  /** A configuration that already satisfies `IsGlusterConfig` is left as it
      is. */
  lemma ConvertedIsFixed(name: string, config: seq<Entry>, cluster: Cluster)
    requires IsGlusterConfig(config, cluster)
    ensures ConvertVolume(name, Map(config), cluster) == Ok(Map(config))
  {
    AssignLaws(config, "driver", Str(Driver));
    var opts := OptionsOf(config);
    assert ExistingOptions(config) == Some(opts);
    var o1 := Assign(opts, "voluri", Str(VolUri(cluster)));
    AssignLaws(opts, "voluri", Str(VolUri(cluster)));
    AssignLaws(o1, "replicate", Str(Replicate));
    AssignLaws(Assign(o1, "replicate", Str(Replicate)), "read-only", Str(ReadOnly));
    assert GlusterOptions(opts, cluster) == opts;
    AssignLaws(config, "driver_opts", Map(opts));
  }

  // ---------------------------------------------------------------------
  // the loop over the volumes section
  // ---------------------------------------------------------------------

  /** `after` is `before` with every entry whose name is valid replaced by
      its converted configuration, and nothing else changed. */
  predicate VolumesRewritten(before: seq<Entry>, after: seq<Entry>, cluster: Cluster)
  {
    && |after| == |before|
    && forall i :: 0 <= i < |before| ==>
         && after[i].0 == before[i].0
         && if IsValidVolume(before[i].0)
            then ConvertVolume(before[i].0, before[i].1, cluster) == Ok(after[i].1)
            else after[i].1 == before[i].1
  }

  /** Every valid entry's configuration can be converted. */
  predicate AllConvertible(volumes: seq<Entry>, cluster: Cluster)
  {
    forall i :: 0 <= i < |volumes| && IsValidVolume(volumes[i].0) ==>
      ConvertVolume(volumes[i].0, volumes[i].1, cluster).Ok?
  }

  /** `for name in volumes: if is_valid_volume(name): volumes[name] =
      convert_volume_to_glusterfs(name, volumes[name])`, which stops at the
      first configuration that raises. */
  function ConvertEntries(volumes: seq<Entry>, cluster: Cluster): (r: Result<seq<Entry>>)
    ensures r.Ok? <==> AllConvertible(volumes, cluster)
    ensures r.Ok? ==> VolumesRewritten(volumes, r.value, cluster)
    decreases |volumes|
  {
    if |volumes| == 0 then Ok([])
    else
      var name := volumes[0].0;
      var head := if IsValidVolume(name) then ConvertVolume(name, volumes[0].1, cluster)
                  else Ok(volumes[0].1);
      match head
      case Err(f) => Err(f)
      case Ok(config) =>
        match ConvertEntries(volumes[1..], cluster)
        case Err(f) =>
          assert !AllConvertible(volumes[1..], cluster);
          Err(f)
        case Ok(rest) =>
          assert forall i :: 0 < i < |volumes| ==> volumes[i] == volumes[1..][i - 1];
          Ok([(name, config)] + rest)
  }

  /** The converted entries of a rewritten section are fixed points, so the
      rewrite of a rewritten section changes nothing. */
  lemma {:induction false} ConvertEntriesIdempotent(volumes: seq<Entry>, cluster: Cluster)
    requires ConvertEntries(volumes, cluster).Ok?
    ensures ConvertEntries(ConvertEntries(volumes, cluster).value, cluster)
         == ConvertEntries(volumes, cluster)
  {
    var after := ConvertEntries(volumes, cluster).value;
    assert VolumesRewritten(volumes, after, cluster);
    forall i | 0 <= i < |after| && IsValidVolume(after[i].0)
      ensures ConvertVolume(after[i].0, after[i].1, cluster) == Ok(after[i].1)
    {
      assert after[i].0 == volumes[i].0;
      assert ConvertVolume(volumes[i].0, volumes[i].1, cluster) == Ok(after[i].1);
      ConvertIdempotent(volumes[i].0, volumes[i].1, cluster);
    }
    assert AllConvertible(after, cluster);
    var again := ConvertEntries(after, cluster).value;
    assert VolumesRewritten(after, again, cluster);
    forall i | 0 <= i < |after|
      ensures again[i] == after[i]
    {
      assert again[i].0 == after[i].0;
      if IsValidVolume(after[i].0) {
        assert Ok(again[i].1) == Ok(after[i].1);
      }
    }
    assert again == after;
  }

  /** The volume part of `process_stack_file`: when the stack has a
      `volumes` key, each valid entry of that mapping is converted in place. */
  function RewriteVolumes(stack: seq<Entry>, cluster: Cluster): (r: Result<seq<Entry>>)
  {
    match Lookup(stack, "volumes")
    case None => Ok(stack)
    case Some(Map(volumes)) =>
      (match ConvertEntries(volumes, cluster)
       case Err(f) => Err(f)
       case Ok(converted) => Ok(Assign(stack, "volumes", Map(converted))))
    case Some(Str(text)) => if text == "" then Ok(stack) else Err(VolumesNotMapping)
    case Some(List(items)) => if items == [] then Ok(stack) else Err(VolumesNotMapping)
    case Some(_) => Err(VolumesNotMapping)
  }

  /** What the rewrite does to a stack. Without a `volumes` key nothing
      changes. With one, the top-level keys and their order are kept and
      every entry other than `volumes` keeps its value; a `volumes` mapping
      has exactly its valid entries converted and fails exactly when one of
      them cannot be; an empty string or list is iterated as nothing; any
      other value raises. */
  lemma RewriteVolumesLaw(stack: seq<Entry>, cluster: Cluster)
    ensures "volumes" !in Keys(stack) ==> RewriteVolumes(stack, cluster) == Ok(stack)
    ensures var r := RewriteVolumes(stack, cluster);
      r.Ok? ==>
        && Keys(r.value) == Keys(stack)
        && Drop(r.value, {"volumes"}) == Drop(stack, {"volumes"})
        && (forall k :: k != "volumes" ==> Lookup(r.value, k) == Lookup(stack, k))
        && (DistinctKeys(stack) ==> DistinctKeys(r.value))
    ensures var r := RewriteVolumes(stack, cluster);
      Lookup(stack, "volumes").Some? && Lookup(stack, "volumes").value.Map? ==>
        var volumes := Lookup(stack, "volumes").value.entries;
        && (r.Ok? <==> AllConvertible(volumes, cluster))
        && (r.Ok? ==>
              && Lookup(r.value, "volumes").Some?
              && Lookup(r.value, "volumes").value.Map?
              && VolumesRewritten(volumes, Lookup(r.value, "volumes").value.entries, cluster))
    ensures var r := RewriteVolumes(stack, cluster);
      Lookup(stack, "volumes").Some? && !Lookup(stack, "volumes").value.Map? ==>
        r == if Lookup(stack, "volumes").value in {Str(""), List([])} then Ok(stack)
             else Err(VolumesNotMapping)
  {
    match Lookup(stack, "volumes") {
      case None =>
      case Some(Map(volumes)) =>
        RewriteMapLaw(stack, volumes, cluster);
      case Some(_) =>
    }
  }

  /** The `volumes` mapping case of `RewriteVolumesLaw`. */
  lemma RewriteMapLaw(stack: seq<Entry>, volumes: seq<Entry>, cluster: Cluster)
    requires Lookup(stack, "volumes") == Some(Map(volumes))
    ensures var r := RewriteVolumes(stack, cluster);
      && (r.Ok? <==> AllConvertible(volumes, cluster))
      && (r.Ok? ==>
            && Keys(r.value) == Keys(stack)
            && Drop(r.value, {"volumes"}) == Drop(stack, {"volumes"})
            && (forall k :: k != "volumes" ==> Lookup(r.value, k) == Lookup(stack, k))
            && (DistinctKeys(stack) ==> DistinctKeys(r.value))
            && Lookup(r.value, "volumes") == Some(Map(ConvertEntries(volumes, cluster).value))
            && VolumesRewritten(volumes, ConvertEntries(volumes, cluster).value, cluster))
  {
    match ConvertEntries(volumes, cluster) {
      case Err(f) =>
        assert RewriteVolumes(stack, cluster) == Err(f);
      case Ok(converted) =>
        assert RewriteVolumes(stack, cluster) == Ok(Assign(stack, "volumes", Map(converted)));
        AssignLaws(stack, "volumes", Map(converted));
        assert "volumes" in Keys(stack);
    }
  }

  /** Rewriting a rewritten stack changes nothing. */
  lemma RewriteVolumesIdempotent(stack: seq<Entry>, cluster: Cluster)
    requires RewriteVolumes(stack, cluster).Ok?
    ensures RewriteVolumes(RewriteVolumes(stack, cluster).value, cluster)
         == RewriteVolumes(stack, cluster)
  {
    var r := RewriteVolumes(stack, cluster).value;
    match Lookup(stack, "volumes") {
      case None =>
      case Some(Map(volumes)) =>
        var converted := ConvertEntries(volumes, cluster).value;
        AssignLaws(stack, "volumes", Map(converted));
        ConvertEntriesIdempotent(volumes, cluster);
        AssignLaws(r, "volumes", Map(converted));
      case Some(_) =>
    }
  }

  // ---------------------------------------------------------------------
  // the rewrite keeps documents the loader can build
  // ---------------------------------------------------------------------

  lemma GlusterOptionsWellFormed(opts: seq<Entry>, cluster: Cluster, plain: string -> bool)
    requires WellFormed(opts, plain)
    ensures WellFormed(GlusterOptions(opts, cluster), plain)
  {
    var o1 := Assign(opts, "voluri", Str(VolUri(cluster)));
    var o2 := Assign(o1, "replicate", Str(Replicate));
    AssignWellFormed(opts, "voluri", Str(VolUri(cluster)), plain);
    AssignWellFormed(o1, "replicate", Str(Replicate), plain);
    AssignWellFormed(o2, "read-only", Str(ReadOnly), plain);
  }

  /** A converted configuration is well formed when the original is. */
  lemma ConvertWellFormed(name: string, config: Value, cluster: Cluster, plain: string -> bool)
    requires WellFormedValue(config, plain) && ConvertVolume(name, config, cluster).Ok?
    ensures WellFormedValue(ConvertVolume(name, config, cluster).value, plain)
  {
    var base := ConfigEntries(config).value;
    assert WellFormed(base, plain);
    var withDriver := Assign(base, "driver", Str(Driver));
    AssignWellFormed(base, "driver", Str(Driver), plain);
    match Lookup(withDriver, "driver_opts") {
      case None =>
      case Some(v) => WellFormedMember(withDriver, ("driver_opts", v), plain);
    }
    var opts := ExistingOptions(withDriver).value;
    assert WellFormed(opts, plain);
    GlusterOptionsWellFormed(opts, cluster, plain);
    AssignWellFormed(withDriver, "driver_opts", Map(GlusterOptions(opts, cluster)), plain);
  }

  lemma ConvertEntriesWellFormed(volumes: seq<Entry>, cluster: Cluster, plain: string -> bool)
    requires WellFormed(volumes, plain) && ConvertEntries(volumes, cluster).Ok?
    ensures WellFormed(ConvertEntries(volumes, cluster).value, plain)
  {
    var after := ConvertEntries(volumes, cluster).value;
    assert VolumesRewritten(volumes, after, cluster);
    assert Keys(after) == Keys(volumes);
    DistinctSameKeys(volumes, after);
    forall i | 0 <= i < |after|
      ensures WellFormedValue(after[i].1, plain)
    {
      if IsValidVolume(volumes[i].0) {
        ConvertWellFormed(volumes[i].0, volumes[i].1, cluster, plain);
      }
    }
  }

  /** The rewrite of a document the loader can build is again one: keys stay
      distinct at every depth and only strings and mappings are added. */
  lemma RewriteVolumesWellFormed(stack: seq<Entry>, cluster: Cluster, plain: string -> bool)
    requires WellFormed(stack, plain) && RewriteVolumes(stack, cluster).Ok?
    ensures WellFormed(RewriteVolumes(stack, cluster).value, plain)
  {
    match Lookup(stack, "volumes") {
      case Some(Map(volumes)) =>
        WellFormedMember(stack, ("volumes", Map(volumes)), plain);
        ConvertEntriesWellFormed(volumes, cluster, plain);
        AssignWellFormed(stack, "volumes", Map(ConvertEntries(volumes, cluster).value), plain);
      case _ =>
    }
  }
}
