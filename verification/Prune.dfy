/**
 The in-process `docker prune` (src/cli/main.rs): what the apps still need, and
 the item-by-item loops that remove the rest. Images and volumes are both
 judged as items: a key to remove by, names that may be protected, a size.
 */
module Prune {
  import opened Common

  // ----- what is protected

  /** One visible app's docker footprint. */
  datatype Footprint = Footprint(app: string, image: Option<string>, volumes: seq<string>)

  /** The first app whose image this is. */
  function ImageClaim(footprints: seq<Footprint>, image: string): Option<string> {
    if footprints == [] then None
    else if footprints[0].image == Some(image) then Some(footprints[0].app)
    else ImageClaim(footprints[1..], image)
  }

  function VolumeClaim(footprints: seq<Footprint>, volume: string): Option<string> {
    if footprints == [] then None
    else if volume in footprints[0].volumes then Some(footprints[0].app)
    else VolumeClaim(footprints[1..], volume)
  }

  /** The map says for each name who claims it first. */
  ghost predicate Tells(protection: map<string, string>, claim: string -> Option<string>) {
    forall name :: (name in protection <==> claim(name).Some?)
        && (name in protection ==> claim(name) == Some(protection[name]))
  }

  lemma {:induction false} ClaimAppend(footprints: seq<Footprint>, f: Footprint, name: string)
    ensures ImageClaim(footprints + [f], name)
         == if ImageClaim(footprints, name).Some? then ImageClaim(footprints, name)
            else if f.image == Some(name) then Some(f.app) else None
    ensures VolumeClaim(footprints + [f], name)
         == if VolumeClaim(footprints, name).Some? then VolumeClaim(footprints, name)
            else if name in f.volumes then Some(f.app) else None
  {
    if footprints == [] {
      assert footprints + [f] == [f];
    } else {
      assert (footprints + [f])[1..] == footprints[1..] + [f];
      ClaimAppend(footprints[1..], f, name);
    }
  }

  method DockerProtection(footprints: seq<Footprint>)
    returns (images: map<string, string>, volumes: map<string, string>)
    ensures Tells(images, name => ImageClaim(footprints, name))
    ensures Tells(volumes, name => VolumeClaim(footprints, name))
  {
    images, volumes := map[], map[];
    for i := 0 to |footprints|
      invariant Tells(images, name => ImageClaim(footprints[..i], name))
      invariant Tells(volumes, name => VolumeClaim(footprints[..i], name))
    {
      var f := footprints[i];
      ghost var images0, volumes0 := images, volumes;
      if f.image.Some? && f.image.value !in images {
        images := images[f.image.value := f.app];
      }
      volumes := ClaimVolumes(volumes, f);
      forall name
        ensures (name in images <==> ImageClaim(footprints[..i + 1], name).Some?)
        ensures name in images ==> ImageClaim(footprints[..i + 1], name) == Some(images[name])
        ensures (name in volumes <==> VolumeClaim(footprints[..i + 1], name).Some?)
        ensures name in volumes ==> VolumeClaim(footprints[..i + 1], name) == Some(volumes[name])
      {
        assert footprints[..i + 1] == footprints[..i] + [f];
        ClaimAppend(footprints[..i], f, name);
      }
    }
    assert footprints[..|footprints|] == footprints;
  }

  /** The inner loop: an app claims its volumes unless an earlier one has. */
  method ClaimVolumes(volumes0: map<string, string>, f: Footprint) returns (volumes: map<string, string>)
    ensures forall v :: v in volumes <==> v in volumes0 || v in f.volumes
    ensures forall v | v in volumes :: volumes[v] == if v in volumes0 then volumes0[v] else f.app
  {
    volumes := volumes0;
    for k := 0 to |f.volumes|
      invariant forall v :: v in volumes <==> v in volumes0 || v in f.volumes[..k]
      invariant forall v | v in volumes :: volumes[v] == if v in volumes0 then volumes0[v] else f.app
    {
      assert f.volumes[..k + 1] == f.volumes[..k] + [f.volumes[k]];
      if f.volumes[k] !in volumes {
        volumes := volumes[f.volumes[k] := f.app];
      }
    }
    assert f.volumes[..|f.volumes|] == f.volumes;
  }

  // ----- items and their fate

  datatype Image = Image(id: string, tags: seq<string>, size: nat, dangling: bool)

  datatype Volume = Volume(name: string, size: Option<nat>)

  datatype Item = Item(key: string, names: seq<string>, size: nat, shown: string)

  datatype PruneResult = PruneResult(removed: seq<string>, reclaimed: nat, skipped: seq<(string, string)>)

  /** `trim_start_matches("sha256:")`, which strips every repetition. */
  function Unprefixed(id: string): string {
    if |id| >= 7 && id[..7] == "sha256:" then Unprefixed(id[7..]) else id
  }

  function ImageItem(image: Image): Item {
    var short := Unprefixed(image.id);
    Item(image.id, image.tags + [image.id], image.size,
         if image.tags != [] then image.tags[0] else if |short| <= 12 then short else short[..12])
  }

  function VolumeItem(volume: Volume): Item {
    Item(volume.name, [volume.name], if volume.size.Some? then volume.size.value else 0, volume.name)
  }

  /** Which images the run looks at at all. */
  function ConsideredImages(images: seq<Image>, danglingOnly: bool): seq<Item> {
    if images == [] then [] else IfConsidered(images[0], danglingOnly) + ConsideredImages(images[1..], danglingOnly)
  }

  function IfConsidered(image: Image, danglingOnly: bool): seq<Item> {
    if danglingOnly && !image.dangling then [] else [ImageItem(image)]
  }

  function ConsideredVolumes(volumes: seq<Volume>): seq<Item> {
    seq(|volumes|, i requires 0 <= i < |volumes| => VolumeItem(volumes[i]))
  }

  /** The first of the names that is protected. */
  function Reason(names: seq<string>, protection: map<string, string>): Option<string> {
    if names == [] then None
    else if names[0] in protection then Some(protection[names[0]])
    else Reason(names[1..], protection)
  }

  /** What a run goes by: the protected names, whether it only plans, and what the engine refuses to remove. */
  datatype Policy = Policy(protection: map<string, string>, dryRun: bool, refusals: map<string, string>)

  /** None when the item goes; otherwise why it stays. */
  function Fate(item: Item, policy: Policy): Option<string> {
    var reason := Reason(item.names, policy.protection);
    if reason.Some? then reason
    else if policy.dryRun || item.key !in policy.refusals then None
    else Some(policy.refusals[item.key])
  }

  function IfGone(item: Item, policy: Policy): seq<Item> {
    if Fate(item, policy) == None then [item] else []
  }

  function IfSkipped(item: Item, policy: Policy): seq<(string, string)> {
    var fate := Fate(item, policy);
    if fate.Some? then [(item.shown, fate.value)] else []
  }

  /** The items that go, in order. */
  function Gone(items: seq<Item>, policy: Policy): seq<Item> {
    if items == [] then [] else IfGone(items[0], policy) + Gone(items[1..], policy)
  }

  function Skipped(items: seq<Item>, policy: Policy): seq<(string, string)> {
    if items == [] then [] else IfSkipped(items[0], policy) + Skipped(items[1..], policy)
  }

  function Shown(items: seq<Item>): seq<string> {
    seq(|items|, i requires 0 <= i < |items| => items[i].shown)
  }

  function Total(items: seq<Item>): nat {
    if items == [] then 0 else items[0].size + Total(items[1..])
  }

  function Keys(items: seq<Item>): set<string> {
    set i | 0 <= i < |items| :: items[i].key
  }

  /** What a finished run must report and leave behind. */
  ghost predicate Pruned(
    items: seq<Item>, policy: Policy, present: set<string>, result: PruneResult, left: set<string>)
  {
    var gone := Gone(items, policy);
    && result == PruneResult(Shown(gone), Total(gone), Skipped(items, policy))
    && left == (if policy.dryRun then present else present - Keys(gone))
  }

  lemma {:induction false} ReasonIff(names: seq<string>, protection: map<string, string>)
    ensures Reason(names, protection).Some? <==> exists name :: name in names && name in protection
    ensures forall i | 0 <= i < |names| && names[i] in protection
        && (forall j | 0 <= j < i :: names[j] !in protection) ::
              Reason(names, protection) == Some(protection[names[i]])
  {
    if names != [] {
      assert forall i | 0 < i < |names| :: names[i] == names[1..][i - 1];
      ReasonIff(names[1..], protection);
      assert forall name :: name in names <==> name == names[0] || name in names[1..];
    }
  }

  lemma {:induction false} GoneAppend(items: seq<Item>, item: Item, policy: Policy)
    ensures Gone(items + [item], policy) == Gone(items, policy) + IfGone(item, policy)
    ensures Skipped(items + [item], policy) == Skipped(items, policy) + IfSkipped(item, policy)
  {
    if items == [] {
      assert items + [item] == [item];
      assert IfGone(item, policy) + [] == [] + IfGone(item, policy);
      assert IfSkipped(item, policy) + [] == [] + IfSkipped(item, policy);
    } else {
      assert (items + [item])[1..] == items[1..] + [item];
      GoneAppend(items[1..], item, policy);
      Associate(IfGone(items[0], policy), Gone(items[1..], policy), IfGone(item, policy));
      Associate(IfSkipped(items[0], policy), Skipped(items[1..], policy), IfSkipped(item, policy));
    }
  }

  lemma {:induction false} TotalAppend(items: seq<Item>, item: Item)
    ensures Total(items + [item]) == Total(items) + item.size
  {
    if items == [] {
      assert items + [item] == [item];
    } else {
      assert (items + [item])[1..] == items[1..] + [item];
      TotalAppend(items[1..], item);
    }
  }

  lemma KeysAppend(items: seq<Item>, item: Item)
    ensures Keys(items + [item]) == Keys(items) + {item.key}
  {
    var all := items + [item];
    assert all[|items|] == item;
    assert forall i | 0 <= i < |items| :: all[i] == items[i];
  }

  /** What judging one item does to the report. */
  function Judged(before: PruneResult, item: Item, policy: Policy): PruneResult {
    var fate := Fate(item, policy);
    if fate == None then before.(removed := before.removed + [item.shown], reclaimed := before.reclaimed + item.size)
    else before.(skipped := before.skipped + [(item.shown, fate.value)])
  }

  /** And to what the engine holds. */
  function LeftBy(left: set<string>, item: Item, policy: Policy): set<string> {
    if Fate(item, policy) == None && !policy.dryRun then left - {item.key} else left
  }

  lemma PrunedMore(items: seq<Item>, item: Item, policy: Policy, present: set<string>, result: PruneResult,
      left: set<string>)
    requires Pruned(items, policy, present, result, left)
    ensures Pruned(items + [item], policy, present, Judged(result, item, policy), LeftBy(left, item, policy))
  {
    GoneAppend(items, item, policy);
    var gone := Gone(items, policy);
    if Fate(item, policy) == None {
      TotalAppend(gone, item);
      KeysAppend(gone, item);
      assert Shown(gone + [item]) == Shown(gone) + [item.shown];
      assert result.skipped + [] == result.skipped;
    } else {
      assert gone + [] == gone;
    }
  }

  lemma {:induction false} ConsideredAppend(images: seq<Image>, image: Image, danglingOnly: bool)
    ensures ConsideredImages(images + [image], danglingOnly)
         == ConsideredImages(images, danglingOnly) + IfConsidered(image, danglingOnly)
  {
    if images == [] {
      assert images + [image] == [image];
      assert IfConsidered(image, danglingOnly) + [] == [] + IfConsidered(image, danglingOnly);
    } else {
      assert (images + [image])[1..] == images[1..] + [image];
      ConsideredAppend(images[1..], image, danglingOnly);
      Associate(IfConsidered(images[0], danglingOnly), ConsideredImages(images[1..], danglingOnly),
          IfConsidered(image, danglingOnly));
    }
  }

  // ----- the loops

  /** The engine as the loops see it: what it holds, and what it refuses to give up. */
  class Engine {
    var present: set<string>
    const refusals: map<string, string>

    constructor (present: set<string>, refusals: map<string, string>)
      ensures this.present == present && this.refusals == refusals
    {
      this.present, this.refusals := present, refusals;
    }

    /** A missing item counts as removed. */
    method Remove(key: string) returns (outcome: Result<(), string>)
      modifies this
      ensures key in refusals ==> outcome == Err(refusals[key]) && present == old(present)
      ensures key !in refusals ==> outcome == Ok(()) && present == old(present) - {key}
    {
      if key in refusals {
        return Err(refusals[key]);
      }
      present := present - {key};
      return Ok(());
    }
  }

  /** The body both loops share: protected, planned, removed or refused. */
  method PruneItem(engine: Engine, item: Item, protection: map<string, string>, dryRun: bool, before: PruneResult)
    returns (result: PruneResult)
    modifies engine
    ensures result == Judged(before, item, Policy(protection, dryRun, engine.refusals))
    ensures engine.present == LeftBy(old(engine.present), item, Policy(protection, dryRun, engine.refusals))
  {
    var reason := Reason(item.names, protection);
    if reason.Some? {
      return before.(skipped := before.skipped + [(item.shown, reason.value)]);
    }
    if dryRun {
      return before.(removed := before.removed + [item.shown], reclaimed := before.reclaimed + item.size);
    }
    var outcome := engine.Remove(item.key);
    match outcome {
      case Ok(_) =>
        result := before.(removed := before.removed + [item.shown], reclaimed := before.reclaimed + item.size);
      case Err(err) => result := before.(skipped := before.skipped + [(item.shown, err)]);
    }
  }

  method PruneImages(engine: Engine, images: seq<Image>, protection: map<string, string>, dryRun: bool,
      danglingOnly: bool)
    returns (result: PruneResult)
    modifies engine
    ensures Pruned(ConsideredImages(images, danglingOnly), Policy(protection, dryRun, engine.refusals),
                   old(engine.present), result, engine.present)
  {
    result := PruneResult([], 0, []);
    ghost var policy := Policy(protection, dryRun, engine.refusals);
    ghost var present := engine.present;
    ghost var judged: seq<Item> := [];
    for i := 0 to |images|
      invariant judged == ConsideredImages(images[..i], danglingOnly)
      invariant Pruned(judged, policy, present, result, engine.present)
    {
      assert images[..i + 1] == images[..i] + [images[i]];
      ConsideredAppend(images[..i], images[i], danglingOnly);
      result := PruneImage(engine, images[i], protection, dryRun, danglingOnly, result, judged, present);
      judged := judged + IfConsidered(images[i], danglingOnly);
    }
    assert images[..|images|] == images;
  }

  /** One turn of the image loop. */
  method PruneImage(
    engine: Engine, image: Image, protection: map<string, string>, dryRun: bool, danglingOnly: bool,
    before: PruneResult, ghost judged: seq<Item>, ghost present: set<string>)
    returns (result: PruneResult)
    requires Pruned(judged, Policy(protection, dryRun, engine.refusals), present, before, engine.present)
    modifies engine
    ensures Pruned(judged + IfConsidered(image, danglingOnly), Policy(protection, dryRun, engine.refusals), present,
                   result, engine.present)
  {
    if danglingOnly && !image.dangling {
      assert judged + [] == judged;
      return before;
    }
    var item := ImageItem(image);
    PrunedMore(judged, item, Policy(protection, dryRun, engine.refusals), present, before, engine.present);
    result := PruneItem(engine, item, protection, dryRun, before);
  }

  method PruneVolumes(engine: Engine, volumes: seq<Volume>, protection: map<string, string>, dryRun: bool)
    returns (result: PruneResult)
    modifies engine
    ensures Pruned(ConsideredVolumes(volumes), Policy(protection, dryRun, engine.refusals),
                   old(engine.present), result, engine.present)
  {
    result := PruneResult([], 0, []);
    ghost var policy := Policy(protection, dryRun, engine.refusals);
    ghost var present := engine.present;
    ghost var judged: seq<Item> := [];
    for i := 0 to |volumes|
      invariant judged == ConsideredVolumes(volumes[..i])
      invariant Pruned(judged, policy, present, result, engine.present)
    {
      var item := VolumeItem(volumes[i]);
      assert ConsideredVolumes(volumes[..i + 1]) == ConsideredVolumes(volumes[..i]) + [item];
      PrunedMore(judged, item, policy, present, result, engine.present);
      judged := judged + [item];
      result := PruneItem(engine, item, protection, dryRun, result);
    }
    assert volumes[..|volumes|] == volumes;
  }

  // ----- what a run guarantees

  /** The engine names every item once. */
  ghost predicate DistinctKeys(items: seq<Item>) {
    forall i, j | 0 <= i < j < |items| :: items[i].key != items[j].key
  }

  lemma {:induction false} GoneMembers(items: seq<Item>, policy: Policy, item: Item)
    ensures item in Gone(items, policy) <==> item in items && Fate(item, policy) == None
  {
    if items != [] {
      GoneMembers(items[1..], policy, item);
      assert item in items <==> item == items[0] || item in items[1..];
    }
  }

  /**
   In a real run an item leaves the engine exactly when no visible app's
   footprint names it and the engine agrees to remove it.
   */
  lemma ItemLeavesIff(items: seq<Item>, policy: Policy, present: set<string>, result: PruneResult, left: set<string>,
      item: Item)
    requires Pruned(items, policy, present, result, left) && !policy.dryRun
    requires DistinctKeys(items) && item in items && item.key in present
    ensures item.key !in left <==>
      (forall name | name in item.names :: name !in policy.protection) && item.key !in policy.refusals
  {
    var gone := Gone(items, policy);
    GoneMembers(items, policy, item);
    ReasonIff(item.names, policy.protection);
    if item.key in Keys(gone) {
      var i :| 0 <= i < |gone| && gone[i].key == item.key;
      GoneMembers(items, policy, gone[i]);
      assert gone[i] == item;
    }
    if item in gone {
      assert item.key in Keys(gone);
    }
  }

  lemma {:induction false} ClaimedIff(footprints: seq<Footprint>, name: string)
    ensures ImageClaim(footprints, name).Some? <==> exists f :: f in footprints && f.image == Some(name)
    ensures VolumeClaim(footprints, name).Some? <==> exists f :: f in footprints && name in f.volumes
    ensures forall i | 0 <= i < |footprints| && footprints[i].image == Some(name)
                       && (forall j | 0 <= j < i :: footprints[j].image != Some(name)) ::
              ImageClaim(footprints, name) == Some(footprints[i].app)
    ensures forall i | 0 <= i < |footprints| && name in footprints[i].volumes
                       && (forall j | 0 <= j < i :: name !in footprints[j].volumes) ::
              VolumeClaim(footprints, name) == Some(footprints[i].app)
  {
    if footprints != [] {
      assert forall i | 0 < i < |footprints| :: footprints[i] == footprints[1..][i - 1];
      ClaimedIff(footprints[1..], name);
      assert forall f :: f in footprints <==> f == footprints[0] || f in footprints[1..];
    }
  }

  /**
   From footprint to engine: under the protection built from the visible apps,
   an image or volume that one of them names never leaves, in a dry run or a
   real one, whatever the engine would agree to.
   */
  lemma FootprintStays(
    footprints: seq<Footprint>, f: Footprint, items: seq<Item>, policy: Policy, present: set<string>,
    result: PruneResult, left: set<string>, item: Item, name: string)
    requires Pruned(items, policy, present, result, left)
    requires DistinctKeys(items) && item in items && item.key in present && name in item.names
    requires f in footprints
    requires (Tells(policy.protection, n => ImageClaim(footprints, n)) && f.image == Some(name))
          || (Tells(policy.protection, n => VolumeClaim(footprints, n)) && name in f.volumes)
    ensures item.key in left
  {
    ClaimedIff(footprints, name);
    if !policy.dryRun {
      ItemLeavesIff(items, policy, present, result, left, item);
    }
  }

  /** And nothing that was not looked at is touched. */
  lemma UnlistedStays(items: seq<Item>, policy: Policy, present: set<string>, result: PruneResult, left: set<string>,
      key: string)
    requires Pruned(items, policy, present, result, left)
    requires key in present && forall item | item in items :: item.key != key
    ensures key in left
  {
    var gone := Gone(items, policy);
    forall i | 0 <= i < |gone|
      ensures gone[i].key != key
    {
      GoneMembers(items, policy, gone[i]);
    }
  }

  // ----- the same in terms of images and volumes

  /** Some app's footprint names the image, by one of its tags or by its id. */
  ghost predicate ImageInUse(footprints: seq<Footprint>, image: Image) {
    exists f :: f in footprints && f.image.Some? && (f.image.value in image.tags || f.image.value == image.id)
  }

  ghost predicate VolumeInUse(footprints: seq<Footprint>, name: string) {
    exists f :: f in footprints && name in f.volumes
  }

  /** `app` is the first whose footprint has the image. */
  ghost predicate FirstWithImage(footprints: seq<Footprint>, image: string, app: string) {
    exists i :: 0 <= i < |footprints| && footprints[i].image == Some(image) && footprints[i].app == app
                && forall j | 0 <= j < i :: footprints[j].image != Some(image)
  }

  ghost predicate FirstWithVolume(footprints: seq<Footprint>, name: string, app: string) {
    exists i :: 0 <= i < |footprints| && name in footprints[i].volumes && footprints[i].app == app
                && forall j | 0 <= j < i :: name !in footprints[j].volumes
  }

  /** The app an image stays for: the first one with its first tag in use, else the first one with its id. */
  ghost predicate StaysFor(footprints: seq<Footprint>, image: Image, app: string) {
    || (exists t :: 0 <= t < |image.tags| && FirstWithImage(footprints, image.tags[t], app)
                    && forall u | 0 <= u < t :: NobodyHasImage(footprints, image.tags[u]))
    || (FirstWithImage(footprints, image.id, app) && forall tag | tag in image.tags :: NobodyHasImage(footprints, tag))
  }

  ghost predicate NobodyHasImage(footprints: seq<Footprint>, image: string) {
    forall f | f in footprints :: f.image != Some(image)
  }

  ghost predicate DistinctIds(images: seq<Image>) {
    forall i, j | 0 <= i < j < |images| :: images[i].id != images[j].id
  }

  ghost predicate DistinctNames(volumes: seq<Volume>) {
    forall i, j | 0 <= i < j < |volumes| :: volumes[i].name != volumes[j].name
  }

  lemma {:induction false} ConsideredMembers(images: seq<Image>, danglingOnly: bool, item: Item)
    ensures item in ConsideredImages(images, danglingOnly)
      <==> exists k :: 0 <= k < |images| && !(danglingOnly && !images[k].dangling) && item == ImageItem(images[k])
  {
    if images != [] {
      ConsideredMembers(images[1..], danglingOnly, item);
      assert forall k | 0 < k < |images| :: images[k] == images[1..][k - 1];
      if k :| 0 <= k < |images| && !(danglingOnly && !images[k].dangling) && item == ImageItem(images[k]) {
        assert k > 0 ==> item == ImageItem(images[1..][k - 1]);
      }
    }
  }

  lemma {:induction false} ConsideredDistinct(images: seq<Image>, danglingOnly: bool)
    requires DistinctIds(images)
    ensures DistinctKeys(ConsideredImages(images, danglingOnly))
  {
    if images != [] {
      ConsideredDistinct(images[1..], danglingOnly);
      forall item | item in ConsideredImages(images[1..], danglingOnly)
        ensures item.key != images[0].id
      {
        ConsideredMembers(images[1..], danglingOnly, item);
      }
    }
  }

  /** Protection built from the footprints protects an image iff some app has it. */
  lemma ProtectedIffInUse(footprints: seq<Footprint>, protection: map<string, string>, image: Image)
    requires Tells(protection, n => ImageClaim(footprints, n))
    ensures (exists name :: name in ImageItem(image).names && name in protection) <==> ImageInUse(footprints, image)
  {
    forall name
      ensures name in protection <==> exists f :: f in footprints && f.image == Some(name)
    {
      ClaimedIff(footprints, name);
    }
    if f :| f in footprints && f.image.Some? && (f.image.value in image.tags || f.image.value == image.id) {
      assert f.image.value in ImageItem(image).names && f.image.value in protection;
    }
  }

  /** After a run an image has left exactly when the run was real, looked at it, no app has it and the engine agreed. */
  lemma ImageLeavesIff(
    footprints: seq<Footprint>, images: seq<Image>, danglingOnly: bool, policy: Policy, present: set<string>,
    result: PruneResult, left: set<string>, k: nat)
    requires Tells(policy.protection, n => ImageClaim(footprints, n))
    requires Pruned(ConsideredImages(images, danglingOnly), policy, present, result, left)
    requires DistinctIds(images) && k < |images| && images[k].id in present
    ensures images[k].id !in left <==>
              && !policy.dryRun && (danglingOnly ==> images[k].dangling)
              && !ImageInUse(footprints, images[k]) && images[k].id !in policy.refusals
  {
    var items, item := ConsideredImages(images, danglingOnly), ImageItem(images[k]);
    ConsideredDistinct(images, danglingOnly);
    ConsideredMembers(images, danglingOnly, item);
    ProtectedIffInUse(footprints, policy.protection, images[k]);
    if danglingOnly && !images[k].dangling {
      forall other | other in items
        ensures other.key != images[k].id
      {
        ConsideredMembers(images, danglingOnly, other);
      }
      UnlistedStays(items, policy, present, result, left, images[k].id);
    } else if !policy.dryRun {
      ItemLeavesIff(items, policy, present, result, left, item);
    }
  }

  lemma {:induction false} SkippedMembers(items: seq<Item>, policy: Policy, item: Item)
    requires item in items && Fate(item, policy).Some?
    ensures (item.shown, Fate(item, policy).value) in Skipped(items, policy)
  {
    if item != items[0] {
      SkippedMembers(items[1..], policy, item);
    }
  }

  lemma {:induction false} GoneOnce(items: seq<Item>, policy: Policy, item: Item)
    requires item in items && Fate(item, policy) == None
    ensures item.shown in Shown(Gone(items, policy))
  {
    GoneMembers(items, policy, item);
    var gone := Gone(items, policy);
    var i :| 0 <= i < |gone| && gone[i] == item;
    assert Shown(gone)[i] == item.shown;
  }

  /** The reason of the first name that is protected. */
  lemma ReasonForImage(footprints: seq<Footprint>, protection: map<string, string>, image: Image, app: string)
    requires Tells(protection, n => ImageClaim(footprints, n)) && StaysFor(footprints, image, app)
    ensures Reason(ImageItem(image).names, protection) == Some(app)
  {
    var names := ImageItem(image).names;
    forall name
      ensures name in protection <==> !NobodyHasImage(footprints, name)
      ensures FirstWithImage(footprints, name, app) ==> name in protection && protection[name] == app
    {
      ClaimedIff(footprints, name);
    }
    ReasonIff(names, protection);
    if t :| 0 <= t < |image.tags| && FirstWithImage(footprints, image.tags[t], app)
            && forall u | 0 <= u < t :: NobodyHasImage(footprints, image.tags[u]) {
      assert names[t] == image.tags[t] && forall u | 0 <= u < t :: names[u] == image.tags[u];
    } else {
      assert names[|image.tags|] == image.id;
      assert forall u | 0 <= u < |image.tags| :: names[u] == image.tags[u] && image.tags[u] in image.tags;
    }
  }

  /** The line of the report an image in use gets: its first tag, else twelve characters of its id, and the app. */
  lemma ImageSkippedFor(
    footprints: seq<Footprint>, images: seq<Image>, danglingOnly: bool, policy: Policy, k: nat, app: string)
    requires Tells(policy.protection, n => ImageClaim(footprints, n))
    requires k < |images| && (danglingOnly ==> images[k].dangling) && StaysFor(footprints, images[k], app)
    ensures (ImageItem(images[k]).shown, app) in Skipped(ConsideredImages(images, danglingOnly), policy)
  {
    var item := ImageItem(images[k]);
    ConsideredMembers(images, danglingOnly, item);
    ReasonForImage(footprints, policy.protection, images[k], app);
    SkippedMembers(ConsideredImages(images, danglingOnly), policy, item);
  }

  /** An image or volume nobody has, which the engine refuses to give up in a real run, is skipped with its reason. */
  lemma RefusedIsSkipped(
    footprints: seq<Footprint>, images: seq<Image>, danglingOnly: bool, volumes: seq<Volume>, policy: Policy, k: nat)
    requires !policy.dryRun
    ensures Tells(policy.protection, n => ImageClaim(footprints, n)) && k < |images|
            && (danglingOnly ==> images[k].dangling) && !ImageInUse(footprints, images[k])
            && images[k].id in policy.refusals ==>
              (ImageItem(images[k]).shown, policy.refusals[images[k].id])
                in Skipped(ConsideredImages(images, danglingOnly), policy)
    ensures Tells(policy.protection, n => VolumeClaim(footprints, n)) && k < |volumes|
            && !VolumeInUse(footprints, volumes[k].name) && volumes[k].name in policy.refusals ==>
              (volumes[k].name, policy.refusals[volumes[k].name]) in Skipped(ConsideredVolumes(volumes), policy)
  {
    if Tells(policy.protection, n => ImageClaim(footprints, n)) && k < |images|
       && (danglingOnly ==> images[k].dangling) && !ImageInUse(footprints, images[k])
       && images[k].id in policy.refusals {
      var item := ImageItem(images[k]);
      ConsideredMembers(images, danglingOnly, item);
      ProtectedIffInUse(footprints, policy.protection, images[k]);
      ReasonIff(item.names, policy.protection);
      SkippedMembers(ConsideredImages(images, danglingOnly), policy, item);
    }
    if Tells(policy.protection, n => VolumeClaim(footprints, n)) && k < |volumes|
       && !VolumeInUse(footprints, volumes[k].name) && volumes[k].name in policy.refusals {
      var items, item := ConsideredVolumes(volumes), VolumeItem(volumes[k]);
      assert items[k] == item;
      ClaimedIff(footprints, volumes[k].name);
      ReasonIff(item.names, policy.protection);
      SkippedMembers(items, policy, item);
    }
  }

  /** How images are shown. */
  lemma ImageShown(image: Image, short: string)
    ensures image.tags != [] ==> ImageItem(image).shown == image.tags[0]
    ensures image.tags == [] && image.id == "sha256:" + short && 12 <= |short| && !("sha256:" <= short) ==>
              ImageItem(image).shown == short[..12]
  {
    if image.tags == [] && image.id == "sha256:" + short && !("sha256:" <= short) {
      assert image.id[7..] == short;
      assert Unprefixed(short) == short;
    }
  }

  /** Bytes of the images a run reports as removed, counted over the images themselves. */
  function Freed(images: seq<Image>, danglingOnly: bool, policy: Policy): nat {
    if images == [] then 0
    else
      var goes := (danglingOnly ==> images[0].dangling) && images[0].id !in policy.protection
                  && (forall tag | tag in images[0].tags :: tag !in policy.protection)
                  && (policy.dryRun || images[0].id !in policy.refusals);
      (if goes then images[0].size else 0) + Freed(images[1..], danglingOnly, policy)
  }

  lemma {:induction false} ReclaimedIsFreed(images: seq<Image>, danglingOnly: bool, policy: Policy)
    ensures Total(Gone(ConsideredImages(images, danglingOnly), policy)) == Freed(images, danglingOnly, policy)
  {
    if images != [] {
      var item, rest := ImageItem(images[0]), ConsideredImages(images[1..], danglingOnly);
      ReclaimedIsFreed(images[1..], danglingOnly, policy);
      ReasonIff(item.names, policy.protection);
      assert forall name :: name in item.names <==> name in images[0].tags || name == images[0].id;
      if !(danglingOnly && !images[0].dangling) {
        assert ConsideredImages(images, danglingOnly) == [item] + rest;
        assert ([item] + rest)[1..] == rest;
        TotalCons(item, Gone(rest, policy));
      } else {
        assert ConsideredImages(images, danglingOnly) == [] + rest == rest;
      }
    }
  }

  /** The same for volumes: one whose size the engine does not know counts for nothing. */
  function FreedVolumes(volumes: seq<Volume>, policy: Policy): nat {
    if volumes == [] then 0
    else
      var goes := volumes[0].name !in policy.protection && (policy.dryRun || volumes[0].name !in policy.refusals);
      (if goes && volumes[0].size.Some? then volumes[0].size.value else 0) + FreedVolumes(volumes[1..], policy)
  }

  lemma {:induction false} ReclaimedIsFreedVolumes(volumes: seq<Volume>, policy: Policy)
    ensures Total(Gone(ConsideredVolumes(volumes), policy)) == FreedVolumes(volumes, policy)
  {
    if volumes != [] {
      var item, rest := VolumeItem(volumes[0]), ConsideredVolumes(volumes[1..]);
      ReclaimedIsFreedVolumes(volumes[1..], policy);
      ReasonIff(item.names, policy.protection);
      assert ConsideredVolumes(volumes)[1..] == rest;
      TotalCons(item, Gone(rest, policy));
    }
  }

  lemma TotalCons(item: Item, rest: seq<Item>)
    ensures Total([item] + rest) == item.size + Total(rest) && Total([] + rest) == Total(rest)
  {
    assert ([item] + rest)[1..] == rest && [] + rest == rest;
  }

  /** `docker prune images`, end to end. */
  method InProcessPruneImages(
    engine: Engine, footprints: seq<Footprint>, images: seq<Image>, dryRun: bool, danglingOnly: bool)
    returns (result: PruneResult)
    modifies engine
    ensures DistinctIds(images) ==>
              forall k | 0 <= k < |images| && images[k].id in old(engine.present) ::
                images[k].id !in engine.present <==>
                  && !dryRun && (danglingOnly ==> images[k].dangling)
                  && !ImageInUse(footprints, images[k]) && images[k].id !in engine.refusals
    ensures forall k, app | 0 <= k < |images| && (danglingOnly ==> images[k].dangling)
                            && StaysFor(footprints, images[k], app) ::
              (ImageItem(images[k]).shown, app) in result.skipped
    ensures forall k | 0 <= k < |images| && !dryRun && (danglingOnly ==> images[k].dangling)
                       && !ImageInUse(footprints, images[k]) && images[k].id in engine.refusals ::
              (ImageItem(images[k]).shown, engine.refusals[images[k].id]) in result.skipped
    ensures exists protection ::
              && (forall name :: name in protection <==> !NobodyHasImage(footprints, name))
              && result.reclaimed == Freed(images, danglingOnly, Policy(protection, dryRun, engine.refusals))
  {
    var protection, _ := DockerProtection(footprints);
    ghost var present := engine.present;
    ghost var policy := Policy(protection, dryRun, engine.refusals);
    result := PruneImages(engine, images, protection, dryRun, danglingOnly);
    if DistinctIds(images) {
      forall k | 0 <= k < |images| && images[k].id in present
        ensures images[k].id !in engine.present <==>
                  && !dryRun && (danglingOnly ==> images[k].dangling)
                  && !ImageInUse(footprints, images[k]) && images[k].id !in engine.refusals
      {
        ImageLeavesIff(footprints, images, danglingOnly, policy, present, result, engine.present, k);
      }
    }
    forall k, app | 0 <= k < |images| && (danglingOnly ==> images[k].dangling) && StaysFor(footprints, images[k], app)
      ensures (ImageItem(images[k]).shown, app) in result.skipped
    {
      ImageSkippedFor(footprints, images, danglingOnly, policy, k, app);
    }
    forall k | 0 <= k < |images| && !dryRun && (danglingOnly ==> images[k].dangling)
               && !ImageInUse(footprints, images[k]) && images[k].id in engine.refusals
      ensures (ImageItem(images[k]).shown, engine.refusals[images[k].id]) in result.skipped
    {
      RefusedIsSkipped(footprints, images, danglingOnly, [], policy, k);
    }
    ReclaimedIsFreed(images, danglingOnly, policy);
    forall name
      ensures name in protection <==> !NobodyHasImage(footprints, name)
    {
      ClaimedIff(footprints, name);
    }
  }

  lemma VolumeLeavesIff(
    footprints: seq<Footprint>, volumes: seq<Volume>, policy: Policy, present: set<string>, result: PruneResult,
    left: set<string>, k: nat)
    requires Tells(policy.protection, n => VolumeClaim(footprints, n))
    requires Pruned(ConsideredVolumes(volumes), policy, present, result, left)
    requires DistinctNames(volumes) && k < |volumes| && volumes[k].name in present
    ensures volumes[k].name !in left <==>
              !policy.dryRun && !VolumeInUse(footprints, volumes[k].name) && volumes[k].name !in policy.refusals
  {
    var items, item := ConsideredVolumes(volumes), VolumeItem(volumes[k]);
    assert items[k] == item && item in items;
    ClaimedIff(footprints, volumes[k].name);
    if !policy.dryRun {
      assert forall name :: name in item.names <==> name == volumes[k].name;
      assert volumes[k].name in item.names && item.key == volumes[k].name;
      ItemLeavesIff(items, policy, present, result, left, item);
      assert volumes[k].name in policy.protection <==> VolumeClaim(footprints, volumes[k].name).Some?;
      assert VolumeInUse(footprints, volumes[k].name)
          <==> exists f :: f in footprints && volumes[k].name in f.volumes;
    }
  }

  lemma VolumeSkippedFor(footprints: seq<Footprint>, volumes: seq<Volume>, policy: Policy, k: nat, app: string)
    requires Tells(policy.protection, n => VolumeClaim(footprints, n))
    requires k < |volumes| && FirstWithVolume(footprints, volumes[k].name, app)
    ensures (volumes[k].name, app) in Skipped(ConsideredVolumes(volumes), policy)
  {
    var items, item := ConsideredVolumes(volumes), VolumeItem(volumes[k]);
    assert items[k] == item && item in items && item.names[0] == volumes[k].name;
    ClaimedIff(footprints, volumes[k].name);
    SkippedMembers(items, policy, item);
  }

  /** `docker prune volumes`, end to end. */
  method InProcessPruneVolumes(engine: Engine, footprints: seq<Footprint>, volumes: seq<Volume>, dryRun: bool)
    returns (result: PruneResult)
    modifies engine
    ensures DistinctNames(volumes) ==>
              forall k | 0 <= k < |volumes| && volumes[k].name in old(engine.present) ::
                volumes[k].name !in engine.present <==>
                  !dryRun && !VolumeInUse(footprints, volumes[k].name) && volumes[k].name !in engine.refusals
    ensures forall k, app | 0 <= k < |volumes| && FirstWithVolume(footprints, volumes[k].name, app) ::
              (volumes[k].name, app) in result.skipped
    ensures forall k | 0 <= k < |volumes| && !dryRun && !VolumeInUse(footprints, volumes[k].name)
                       && volumes[k].name in engine.refusals ::
              (volumes[k].name, engine.refusals[volumes[k].name]) in result.skipped
    ensures exists protection ::
              && (forall name :: name in protection <==> VolumeInUse(footprints, name))
              && result.reclaimed == FreedVolumes(volumes, Policy(protection, dryRun, engine.refusals))
  {
    var _, protection := DockerProtection(footprints);
    ghost var present := engine.present;
    ghost var policy := Policy(protection, dryRun, engine.refusals);
    result := PruneVolumes(engine, volumes, protection, dryRun);
    if DistinctNames(volumes) {
      forall k | 0 <= k < |volumes| && volumes[k].name in present
        ensures volumes[k].name !in engine.present <==>
                  !dryRun && !VolumeInUse(footprints, volumes[k].name) && volumes[k].name !in engine.refusals
      {
        VolumeLeavesIff(footprints, volumes, policy, present, result, engine.present, k);
      }
    }
    forall k, app | 0 <= k < |volumes| && FirstWithVolume(footprints, volumes[k].name, app)
      ensures (volumes[k].name, app) in result.skipped
    {
      VolumeSkippedFor(footprints, volumes, policy, k, app);
    }
    forall k | 0 <= k < |volumes| && !dryRun && !VolumeInUse(footprints, volumes[k].name)
               && volumes[k].name in engine.refusals
      ensures (volumes[k].name, engine.refusals[volumes[k].name]) in result.skipped
    {
      RefusedIsSkipped(footprints, [], false, volumes, policy, k);
    }
    ReclaimedIsFreedVolumes(volumes, policy);
    forall name
      ensures name in protection <==> VolumeInUse(footprints, name)
    {
      ClaimedIff(footprints, name);
    }
  }

  lemma KeptAndGone(a: Item, b: Item, policy: Policy, reason: string)
    requires Fate(a, policy) == Some(reason) && Fate(b, policy) == None
    ensures Gone([a, b], policy) == [b] && Skipped([a, b], policy) == [(a.shown, reason)]
    ensures Keys([b]) == {b.key} && Total([b]) == b.size
  {
    GoneAppend([], a, policy);
    GoneAppend([a], b, policy);
    assert [] + [a] == [a] && [a] + [b] == [a, b];
    assert [b][0] == b && [b][1..] == [];
  }

  /** A run in full: one image in use by its tag, one that nobody has. */
  lemma PruneExample(result: PruneResult, left: set<string>)
    requires var used := Image("sha256:ab", ["gitea/gitea:1.22"], 5, false);
      var free := Image("sha256:0123456789abcdef", [], 7, true);
      Pruned(ConsideredImages([used, free], false), Policy(map["gitea/gitea:1.22" := "Gitea"], false, map[]),
             {used.id, free.id}, result, left)
    ensures left == {"sha256:ab"}
    ensures result == PruneResult(["0123456789ab"], 7, [("gitea/gitea:1.22", "Gitea")])
  {
    var used := Image("sha256:ab", ["gitea/gitea:1.22"], 5, false);
    var free := Image("sha256:0123456789abcdef", [], 7, true);
    assert used.id[8] != free.id[8];
    ImageShown(free, "0123456789abcdef");
    assert "0123456789abcdef"[..12] == "0123456789ab";
    UsedAndFree(used, free, "gitea/gitea:1.22", "Gitea", result, left);
  }

  lemma UsedAndFree(used: Image, free: Image, tag: string, app: string, result: PruneResult, left: set<string>)
    requires used.tags == [tag] && free.tags == [] && used.id != free.id && free.id != tag
    requires Pruned(ConsideredImages([used, free], false), Policy(map[tag := app], false, map[]),
                    {used.id, free.id}, result, left)
    ensures left == {used.id}
    ensures result == PruneResult([ImageItem(free).shown], free.size, [(tag, app)])
  {
    var policy := Policy(map[tag := app], false, map[]);
    var a, b := ImageItem(used), ImageItem(free);
    assert a.names[0] == tag && b.names == [free.id];
    ReasonIff(b.names, policy.protection);
    assert Fate(a, policy) == Some(app) && Fate(b, policy) == None;
    assert [used, free][1..] == [free] && [free][1..] == [];
    assert ConsideredImages([free], false) == [b] + [];
    assert ConsideredImages([used, free], false) == [a] + ([b] + []) == [a, b];
    KeptAndGone(a, b, policy, app);
    assert Shown([b]) == [b.shown];
  }

  function Names(skipped: seq<(string, string)>): seq<string> {
    seq(|skipped|, i requires 0 <= i < |skipped| => skipped[i].0)
  }

  /** Each item looked at is reported exactly once, as removed or as skipped. */
  lemma {:induction false} ReportedOnce(items: seq<Item>, policy: Policy)
    ensures multiset(Shown(Gone(items, policy))) + multiset(Names(Skipped(items, policy))) == multiset(Shown(items))
  {
    if items != [] {
      ReportedOnce(items[1..], policy);
      OneReportedOnce(items, policy);
    }
  }

  lemma OneReportedOnce(items: seq<Item>, policy: Policy)
    requires items != []
    requires multiset(Shown(Gone(items[1..], policy))) + multiset(Names(Skipped(items[1..], policy)))
          == multiset(Shown(items[1..]))
    ensures multiset(Shown(Gone(items, policy))) + multiset(Names(Skipped(items, policy))) == multiset(Shown(items))
  {
    var here, all := items[0].shown, Shown(items[1..]);
    var gone, skipped := Shown(Gone(items[1..], policy)), Names(Skipped(items[1..], policy));
    OneReported(items, policy);
    OneMore(here, all, gone, skipped);
    assert Shown(items) == [here] + all;
    if Fate(items[0], policy) == None {
      assert Shown(Gone(items, policy)) == [here] + gone && Names(Skipped(items, policy)) == skipped;
    } else {
      assert Shown(Gone(items, policy)) == gone && Names(Skipped(items, policy)) == [here] + skipped;
    }
  }

  lemma OneReported(items: seq<Item>, policy: Policy)
    requires items != []
    ensures var gone, skipped := Gone(items[1..], policy), Skipped(items[1..], policy);
      if Fate(items[0], policy) == None
      then Shown(Gone(items, policy)) == [items[0].shown] + Shown(gone) && Skipped(items, policy) == skipped
      else Gone(items, policy) == gone && Names(Skipped(items, policy)) == [items[0].shown] + Names(skipped)
  {
    var gone, skipped := Gone(items[1..], policy), Skipped(items[1..], policy);
    var fate := Fate(items[0], policy);
    if fate == None {
      assert Skipped(items, policy) == [] + skipped == skipped;
      ShownCons(items[0], gone);
    } else {
      assert Gone(items, policy) == [] + gone == gone;
      NamesCons((items[0].shown, fate.value), skipped);
    }
  }

  lemma ShownCons(item: Item, rest: seq<Item>)
    ensures Shown([item] + rest) == [item.shown] + Shown(rest)
  {
  }

  lemma NamesCons(x: (string, string), rest: seq<(string, string)>)
    ensures Names([x] + rest) == [x.0] + Names(rest)
  {
  }

  lemma OneMore(x: string, all: seq<string>, a: seq<string>, b: seq<string>)
    requires multiset(a) + multiset(b) == multiset(all)
    ensures multiset([x] + a) + multiset(b) == multiset([x] + all)
    ensures multiset(a) + multiset([x] + b) == multiset([x] + all)
  {
  }

  /** The engine refuses to remove some item nothing protects. */
  ghost predicate SomeRefused(items: seq<Item>, protection: map<string, string>, refusals: map<string, string>) {
    exists item :: item in items && Reason(item.names, protection) == None && item.key in refusals
  }

  /** A dry run reports exactly what the real run does, unless the engine refuses an unprotected item. */
  lemma DryRunFaithfulIff(
    items: seq<Item>, policy: Policy, present: set<string>, dry: PruneResult, actual: PruneResult, left: set<string>)
    requires Pruned(items, policy.(dryRun := true), present, dry, present)
    requires Pruned(items, policy.(dryRun := false), present, actual, left)
    ensures dry == actual <==> !SomeRefused(items, policy.protection, policy.refusals)
  {
    DryAndReal(items, policy);
  }

  lemma {:induction false} DryAndReal(items: seq<Item>, policy: Policy)
    ensures var dry, actual := policy.(dryRun := true), policy.(dryRun := false);
      && |Gone(items, actual)| <= |Gone(items, dry)|
      && (SomeRefused(items, policy.protection, policy.refusals) ==> |Gone(items, actual)| < |Gone(items, dry)|)
      && (!SomeRefused(items, policy.protection, policy.refusals) ==>
            Gone(items, actual) == Gone(items, dry) && Skipped(items, actual) == Skipped(items, dry))
  {
    if items != [] {
      DryAndReal(items[1..], policy);
      assert forall item :: item in items <==> item == items[0] || item in items[1..];
    }
  }
}
