/**
  Turning the discovery snapshot the API server returns into the resource
  types a reconciliation pass visits: splitting each entry's group/version
  string, and keeping only the resource kinds that can be both listed and
  deleted.
 */
module Discovery {
  import opened Wrappers
  import opened GoStrings

  /** One resource kind of a discovery entry, with the verbs the server supports for it. */
  datatype ApiResource = ApiResource(name: string, kind: string, namespaced: bool, verbs: seq<string>)

  /** One discovery entry: a group/version string such as "apps/v1" or "v1", and its kinds. */
  datatype ApiResourceList = ApiResourceList(groupVersion: string, resources: seq<ApiResource>)

  datatype GroupVersion = GroupVersion(group: string, version: string)

  /** Group-version-resource: the address of one resource type in the dynamic client. */
  datatype Gvr = Gvr(group: string, version: string, resource: string)

  /** A resource type the pass will list, with the descriptor it came from. */
  datatype Target = Target(gvr: Gvr, resource: ApiResource)

  /**
    Split the group/version string on "/": two pieces are group and version,
    one piece is a version of the core (empty) group, anything else is
    malformed and the entry is skipped.
   */
  function ParseGroupVersion(groupVersion: string): Option<GroupVersion>
  {
    var parts := Split(groupVersion, '/');
    if |parts| == 2 then Some(GroupVersion(parts[0], parts[1]))
    else if |parts| == 1 then Some(GroupVersion("", parts[0]))
    else None
  }

  /**
    What the split decides, stated on the string itself: a group/version with
    no slash is a core-group version, one slash separates group from version,
    and two or more slashes make the entry malformed.
   */
  lemma GroupVersionCases(groupVersion: string)
    ensures ParseGroupVersion(groupVersion).None? <==> Count(groupVersion, '/') >= 2
    ensures Count(groupVersion, '/') == 0 ==>
              ParseGroupVersion(groupVersion) == Some(GroupVersion("", groupVersion))
    ensures Count(groupVersion, '/') == 1 ==>
              var gv := ParseGroupVersion(groupVersion).value;
              && groupVersion == gv.group + "/" + gv.version
              && '/' !in gv.group && '/' !in gv.version
  {
    var parts := Split(groupVersion, '/');
    SplitCount(groupVersion, '/');
    JoinSplit(groupVersion, '/');
    SplitPiecesFree(groupVersion, '/');
    if |parts| == 2 {
      assert parts[1..] == [parts[1]];
      assert parts[0] in parts && parts[1] in parts;
    }
  }

  /** Rendering a group and a version as "group/version" and parsing it back is the identity. */
  lemma GroupVersionRoundTrip(group: string, version: string)
    requires '/' !in group && '/' !in version
    ensures ParseGroupVersion(group + "/" + version) == Some(GroupVersion(group, version))
    ensures ParseGroupVersion(version) == Some(GroupVersion("", version))
  {
    SplitJoin([group, version], '/');
    assert Join([group, version], '/') == group + "/" + version by {
      assert [group, version][1..] == [version];
    }
    SplitJoin([version], '/');
  }

  /** How the verb list prints with Go's `%v`: "[create delete get list]". */
  function RenderVerbs(verbs: seq<string>): string
  {
    "[" + Join(verbs, ' ') + "]"
  }

  /** The filter of the source: the rendered verb string contains both "list" and "delete". */
  predicate CanListAndDelete(verbs: seq<string>)
  {
    Contains(RenderVerbs(verbs), "list") && Contains(RenderVerbs(verbs), "delete")
  }

  /**
    A word without spaces or brackets occurs in the rendered verb string
    exactly when it occurs inside one of the verbs.
   */
  lemma RenderedVerbsContain(verbs: seq<string>, word: string)
    requires |word| > 0 && ' ' !in word && '[' !in word && ']' !in word
    ensures Contains(RenderVerbs(verbs), word) <==> exists v :: v in verbs && Contains(v, word)
  {
    var joined := Join(verbs, ' ');
    ContainsJoin(verbs, ' ', word);
    assert RenderVerbs(verbs) == [] + ['['] + (joined + [']']);
    ContainsAroundSeparator([], '[', joined + [']'], word);
    assert joined + [']'] == joined + [']'] + [];
    ContainsAroundSeparator(joined, ']', [], word);
    NothingInEmpty(word);
  }

  /**
    The verb filter is substring matching: a kind passes exactly when some
    verb contains "list" and some verb contains "delete" (so "deletecollection"
    alone satisfies the "delete" half).
   */
  lemma VerbFilterMeaning(verbs: seq<string>)
    ensures CanListAndDelete(verbs) <==>
              (exists v :: v in verbs && Contains(v, "list")) &&
              (exists v :: v in verbs && Contains(v, "delete"))
  {
    RenderedVerbsContain(verbs, "list");
    RenderedVerbsContain(verbs, "delete");
  }

  /** Holding "list" and "deletecollection" is enough to pass the filter. */
  lemma DeleteCollectionPasses()
    ensures CanListAndDelete(["list", "deletecollection"])
  {
    var verbs := ["list", "deletecollection"];
    assert OccursAt(verbs[0], "list", 0);
    assert verbs[0] in verbs && Contains(verbs[0], "list");
    assert OccursAt(verbs[1], "delete", 0);
    assert verbs[1] in verbs && Contains(verbs[1], "delete");
    VerbFilterMeaning(verbs);
  }

  /** A kind that can only be read or watched is filtered out. */
  lemma ReadOnlyKindFiltered()
    ensures !CanListAndDelete(["get", "watch"])
  {
    VerbFilterMeaning(["get", "watch"]);
  }

  function TargetFor(gv: GroupVersion, resource: ApiResource): Target
  {
    Target(Gvr(gv.group, gv.version, resource.name), resource)
  }

  /** The kinds of one entry that pass the verb filter, in order, addressed under `gv`. */
  function Eligible(gv: GroupVersion, resources: seq<ApiResource>): (targets: seq<Target>)
    ensures forall t :: t in targets <==>
              exists a :: a in resources && CanListAndDelete(a.verbs) && t == TargetFor(gv, a)
  {
    if |resources| == 0 then []
    else
      var rest := Eligible(gv, resources[1..]);
      assert forall a :: a in resources <==> a == resources[0] || a in resources[1..];
      (if CanListAndDelete(resources[0].verbs) then [TargetFor(gv, resources[0])] else []) + rest
  }

  /** The targets one discovery entry contributes: none when it has no kinds or a malformed group/version. */
  function EntryTargets(entry: ApiResourceList): seq<Target>
  {
    if |entry.resources| == 0 then []
    else
      match ParseGroupVersion(entry.groupVersion)
      case None => []
      case Some(gv) => Eligible(gv, entry.resources)
  }

  /** Every target of the snapshot, entry by entry in snapshot order. */
  function Targets(snapshot: seq<ApiResourceList>): (targets: seq<Target>)
    ensures forall t :: t in targets <==> exists e :: e in snapshot && t in EntryTargets(e)
  {
    if |snapshot| == 0 then []
    else
      var rest := Targets(snapshot[1..]);
      assert forall e :: e in snapshot <==> e == snapshot[0] || e in snapshot[1..];
      EntryTargets(snapshot[0]) + rest
  }

  /** Kind `resource` of entry `entry` is visited as target `t`. */
  predicate Admits(entry: ApiResourceList, resource: ApiResource, t: Target)
  {
    && ParseGroupVersion(entry.groupVersion).Some?
    && CanListAndDelete(resource.verbs)
    && t == TargetFor(ParseGroupVersion(entry.groupVersion).value, resource)
  }

  /**
    Exactly the kinds that sit in a well-formed entry and pass the verb filter
    are visited, each under the group and version of its entry.
   */
  lemma TargetsExactly(snapshot: seq<ApiResourceList>, t: Target)
    ensures t in Targets(snapshot) <==>
              exists e, a :: e in snapshot && a in e.resources && Admits(e, a, t)
  {
    if t in Targets(snapshot) {
      var e :| e in snapshot && t in EntryTargets(e);
      var gv := ParseGroupVersion(e.groupVersion).value;
      var a :| a in e.resources && CanListAndDelete(a.verbs) && t == TargetFor(gv, a);
      assert Admits(e, a, t);
    }
    if exists e, a :: e in snapshot && a in e.resources && Admits(e, a, t) {
      var e, a :| e in snapshot && a in e.resources && Admits(e, a, t);
      assert t in EntryTargets(e);
    }
  }

  /**
    The resource types, in visiting order: one per target, and every
    resource type of a target among them.
   */
  function Gvrs(targets: seq<Target>): (gvrs: seq<Gvr>)
    ensures |gvrs| == |targets|
    ensures forall i :: 0 <= i < |targets| ==> gvrs[i] == targets[i].gvr
    ensures forall g :: g in gvrs <==> exists t :: t in targets && t.gvr == g
  {
    seq(|targets|, i requires 0 <= i < |targets| => targets[i].gvr)
  }
}
