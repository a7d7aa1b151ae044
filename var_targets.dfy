/** Turning ground-truth entries into rename targets for the Java tool
    (`to_java_var_targets` of `data/ground_truth/filter_rename_variable_targets.py`).
    Only "Rename Variable" entries with a before-URL and at least one
    before-location give a target; each location becomes a line/column
    locator. */
module VariableTargets {

  import opened Options
  import opened Collections

  /** The refactoring type this filter keeps. */
  const RenameVariable: string := "Rename Variable"

  /** One before-location of an entry; `line` or `start_column` may be absent. */
  datatype Instance = Instance(line: Option<int>, startColumn: Option<int>)

  /** The fields of a ground-truth entry the filter reads; an absent key or a null reads as nothing. */
  datatype Item = Item(
    refactoringType: Option<string>,
    urlBefore: Option<string>,
    instancesBefore: Option<seq<Instance>>,
    oldName: Option<string>,
    newName: Option<string>)

  datatype Locator = Locator(line: Option<int>, column: Option<int>)

  datatype Target = Target(path: string, locators: seq<Locator>, oldName: Option<string>, newName: Option<string>)

  function LocatorOf(instance: Instance): Locator {
    Locator(instance.line, instance.startColumn)
  }

  /** `it.get("instance_location_before_refactoring") or []` */
  function InstancesOf(item: Item): seq<Instance> {
    if item.instancesBefore.Some? then item.instancesBefore.value else []
  }

  /** The entry gives a target: it is a variable rename with a non-empty
      URL and at least one location. */
  predicate Selected(item: Item) {
    && item.refactoringType == Some(RenameVariable)
    && item.urlBefore.Some? && item.urlBefore.value != []
    && InstancesOf(item) != []
  }

  /** The target an entry gives, if any. */
  function TargetOf(item: Item): (target: Option<Target>)
    ensures target.Some? <==> Selected(item)
    ensures target.Some? ==>
      && target.value.path == item.urlBefore.value
      && target.value.path != []
      && |target.value.locators| == |InstancesOf(item)| > 0
      && (forall k :: 0 <= k < |InstancesOf(item)| ==>
            target.value.locators[k].line == InstancesOf(item)[k].line
            && target.value.locators[k].column == InstancesOf(item)[k].startColumn)
      && target.value.oldName == item.oldName
      && target.value.newName == item.newName
  {
    if !Selected(item) then None
    else
      var locators := MapSeq(LocatorOf, InstancesOf(item));
      assert forall k :: 0 <= k < |locators| ==> locators[k] == LocatorOf(InstancesOf(item)[k]);
      Some(Target(item.urlBefore.value, locators, item.oldName, item.newName))
  }

  /** The targets of a list of entries, in entry order. */
  function Targets(items: seq<Item>): (targets: seq<Target>)
    ensures |targets| <= |items|
    ensures forall t :: t in targets <==> exists it :: it in items && TargetOf(it) == Some(t)
  {
    if items == [] then []
    else
      var front := items[..|items| - 1];
      var last := items[|items| - 1];
      assert forall it :: it in items <==> it in front || it == last;
      Targets(front) + (if TargetOf(last).Some? then [TargetOf(last).value] else [])
  }

  /** The filter works entry by entry: the targets of consecutive blocks
      of entries follow one another. */
  lemma {:induction false} TargetsAppend(a: seq<Item>, b: seq<Item>)
    ensures Targets(a + b) == Targets(a) + Targets(b)
    decreases |b|
  {
    if b == [] {
      assert a + b == a;
    } else {
      var b' := b[..|b| - 1];
      assert (a + b)[..|a + b| - 1] == a + b';
      TargetsAppend(a, b');
    }
  }

  /** A target count equals the entry count exactly when every entry is selected. */
  lemma {:induction false} AllSelectedIff(items: seq<Item>)
    ensures |Targets(items)| == |items| <==> forall it :: it in items ==> Selected(it)
    decreases |items|
  {
    if items != [] {
      var front := items[..|items| - 1];
      var last := items[|items| - 1];
      assert forall it :: it in items <==> it in front || it == last;
      AllSelectedIff(front);
    }
  }

  /** `to_java_var_targets` */
  method ToJavaVarTargets(items: seq<Item>) returns (targets: seq<Target>)
    ensures targets == Targets(items)
  {
    targets := [];
    for i := 0 to |items|
      invariant targets == Targets(items[..i])
    {
      var item := items[i];
      assert items[..i + 1][..i] == items[..i];
      if item.refactoringType != Some(RenameVariable) {
        continue;
      }
      var url := item.urlBefore;
      var instances := if item.instancesBefore.Some? then item.instancesBefore.value else [];
      if url.None? || url.value == [] || instances == [] {
        continue;
      }
      var locators: seq<Locator> := [];
      for j := 0 to |instances|
        invariant locators == MapSeq(LocatorOf, instances[..j])
      {
        var instance := instances[j];
        MapSeqStep(LocatorOf, instances, j);
        locators := locators + [Locator(instance.line, instance.startColumn)];
      }
      assert instances[..|instances|] == instances;
      targets := targets + [Target(url.value, locators, item.oldName, item.newName)];
    }
    assert items[..|items|] == items;
  }
}
