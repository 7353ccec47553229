/**
 The difference between a local and a remote configuration: what to push, what to pull, and which
 dotted paths to leave alone.
 */
module ConfigDiff {
  import opened Outcomes

  /** What `===` compares by value, and arrays, which it compares by identity. */
  datatype Scalar = Undefined | Null | Bool(b: bool) | Number(n: int) | Text(s: string) | ArrayRef(id: nat)

  type Fields = map<string, Json>

  datatype Json = Leaf(v: Scalar) | Obj(fields: Fields)

  datatype Diff = Change(push: Option<Json>, pull: Option<Json>) | Nested(diffs: map<string, Diff>)

  type Diffs = map<string, Diff>

  /** The dotted path of a key; at the top level, and below an empty path, it is the key itself. */
  function KeyPath(currentPath: string, key: string): string {
    if currentPath == "" then key else currentPath + "." + key
  }

  predicate Excluded(path: string, excludedPaths: seq<string>) {
    path in excludedPaths
  }

  /** The entry for one key, before empty entries are pruned. */
  function RawEntry(local: Fields, remote: Fields, ex: seq<string>, path: string, key: string): Option<Diff>
    decreases Obj(local), 0
  {
    if Excluded(KeyPath(path, key), ex) then None
    else if key in local && key in remote then
      if local[key].Obj? && remote[key].Obj? then
        Some(Nested(DiffOf(local[key].fields, remote[key].fields, ex, KeyPath(path, key))))
      else if local[key] == remote[key] then None
      else Some(Change(Some(local[key]), Some(remote[key])))
    else if key in local then Some(Change(Some(local[key]), None))
    else if key in remote then Some(Change(None, Some(remote[key])))
    else None
  }

  predicate IsEmptyEntry(entry: Diff) {
    entry == Nested(map[])
  }

  function Entry(local: Fields, remote: Fields, ex: seq<string>, path: string, key: string): Option<Diff>
    decreases Obj(local), 1
  {
    var raw := RawEntry(local, remote, ex, path, key);
    if raw.Some? && IsEmptyEntry(raw.value) then None else raw
  }

  /** The whole difference of two objects, pruned. */
  function DiffOf(local: Fields, remote: Fields, ex: seq<string>, path: string): Diffs
    decreases Obj(local), 2
  {
    map key | key in local.Keys + remote.Keys && Entry(local, remote, ex, path, key).Some?
      :: Entry(local, remote, ex, path, key).value
  }

  /** `result` holds exactly the raw entries of the keys in `done`. */
  ghost predicate Filled(
    result: Diffs, done: set<string>, local: Fields, remote: Fields, ex: seq<string>, path: string)
  {
    && result.Keys <= done
    && forall key | key in done ::
         RawEntry(local, remote, ex, path, key) == if key in result then Some(result[key]) else None
  }

  function SetEntry(result: Diffs, key: string, entry: Option<Diff>): Diffs {
    if entry.Some? then result[key := entry.value] else result
  }

  lemma FilledStep(
    result: Diffs, done: set<string>, key: string, local: Fields, remote: Fields, ex: seq<string>, path: string)
    requires Filled(result, done, local, remote, ex, path) && key !in done
    ensures Filled(SetEntry(result, key, RawEntry(local, remote, ex, path, key)), done + {key}, local, remote, ex, path)
  {
  }

  /** First loop: the keys of the local object, recursing where both sides hold an object. */
  method FillFromLocal(local: Fields, remote: Fields, ex: seq<string>, path: string) returns (result: Diffs)
    ensures Filled(result, local.Keys, local, remote, ex, path)
    decreases Obj(local), 0
  {
    result := map[];
    var left := local.Keys;
    while left != {}
      invariant left <= local.Keys
      invariant Filled(result, local.Keys - left, local, remote, ex, path)
      decreases left
    {
      var key :| key in left;
      FilledStep(result, local.Keys - left, key, local, remote, ex, path);
      assert local.Keys - (left - {key}) == local.Keys - left + {key};
      left := left - {key};
      var keyPath := KeyPath(path, key);
      if Excluded(keyPath, ex) {
        continue;
      }
      if key in remote {
        if local[key].Obj? && remote[key].Obj? {
          var nested := DiffObjects(local[key].fields, remote[key].fields, ex, keyPath);
          result := result[key := Nested(nested)];
        } else if local[key] != remote[key] {
          result := result[key := Change(Some(local[key]), Some(remote[key]))];
        }
      } else {
        result := result[key := Change(Some(local[key]), None)];
      }
    }
  }

  /** Second loop: the keys that only the remote object has. */
  method FillFromRemote(pushes: Diffs, local: Fields, remote: Fields, ex: seq<string>, path: string)
    returns (result: Diffs)
    requires Filled(pushes, local.Keys, local, remote, ex, path)
    ensures Filled(result, local.Keys + remote.Keys, local, remote, ex, path)
  {
    result := pushes;
    var left := remote.Keys;
    while left != {}
      invariant left <= remote.Keys
      invariant Filled(result, local.Keys + (remote.Keys - left), local, remote, ex, path)
      decreases left
    {
      var key :| key in left;
      var done := local.Keys + (remote.Keys - left);
      left := left - {key};
      if key in local {
        assert local.Keys + (remote.Keys - left) == done;
        continue;
      }
      FilledStep(result, done, key, local, remote, ex, path);
      assert local.Keys + (remote.Keys - left) == done + {key};
      if Excluded(KeyPath(path, key), ex) {
        continue;
      }
      result := result[key := Change(None, Some(remote[key]))];
    }
  }

  /** Third loop: empty entries are deleted. */
  method PruneEmpty(filled: Diffs) returns (result: Diffs)
    ensures result == map key | key in filled && !IsEmptyEntry(filled[key]) :: filled[key]
  {
    result := filled;
    var left := result.Keys;
    while left != {}
      invariant left <= result.Keys <= filled.Keys
      invariant forall key | key in filled ::
                  if key in result then result[key] == filled[key] && (key in left || !IsEmptyEntry(filled[key]))
                  else IsEmptyEntry(filled[key])
      decreases left
    {
      var key :| key in left;
      left := left - {key};
      if IsEmptyEntry(result[key]) {
        result := result - {key};
      }
    }
  }

  /** The result is filled from the local keys, then from the remote ones, then pruned. */
  method DiffObjects(local: Fields, remote: Fields, ex: seq<string>, path: string) returns (result: Diffs)
    ensures result == DiffOf(local, remote, ex, path)
    decreases Obj(local), 1
  {
    var pushes := FillFromLocal(local, remote, ex, path);
    var filled := FillFromRemote(pushes, local, remote, ex, path);
    result := PruneEmpty(filled);
    PrunedIsDiff(filled, local, remote, ex, path);
  }

  lemma PrunedIsDiff(filled: Diffs, local: Fields, remote: Fields, ex: seq<string>, path: string)
    requires Filled(filled, local.Keys + remote.Keys, local, remote, ex, path)
    ensures DiffOf(local, remote, ex, path) == map key | key in filled && !IsEmptyEntry(filled[key]) :: filled[key]
  {
    forall key
      ensures key in filled && !IsEmptyEntry(filled[key])
         <==> key in local.Keys + remote.Keys && Entry(local, remote, ex, path, key).Some?
    {
    }
  }

  /** A key is in the difference exactly when it has an entry. */
  lemma EntryInDiff(local: Fields, remote: Fields, ex: seq<string>, path: string, key: string)
    ensures var diffs, entry := DiffOf(local, remote, ex, path), Entry(local, remote, ex, path, key);
      if key in diffs then entry == Some(diffs[key]) else entry == None
  {
  }

  // ---- Swapping the sides ----

  function Swap(diff: Diff): Diff
    decreases diff, 1
  {
    match diff
    case Change(push, pull) => Change(pull, push)
    case Nested(diffs) => Nested(SwapAll(diffs))
  }

  function SwapAll(diffs: Diffs): Diffs
    decreases Nested(diffs), 0
  {
    map key | key in diffs :: Swap(diffs[key])
  }

  function SwapEntry(entry: Option<Diff>): Option<Diff> {
    match entry
    case None => None
    case Some(diff) => Some(Swap(diff))
  }

  lemma {:induction false} SwapRawEntry(local: Fields, remote: Fields, ex: seq<string>, path: string, key: string)
    ensures RawEntry(remote, local, ex, path, key) == SwapEntry(RawEntry(local, remote, ex, path, key))
    decreases Obj(local), 0
  {
    if key in local && key in remote && local[key].Obj? && remote[key].Obj? {
      SwapSides(local[key].fields, remote[key].fields, ex, KeyPath(path, key));
    }
  }

  /** Comparing the other way round swaps push and pull everywhere and changes nothing else. */
  lemma {:induction false} SwapSides(local: Fields, remote: Fields, ex: seq<string>, path: string)
    ensures DiffOf(remote, local, ex, path) == SwapAll(DiffOf(local, remote, ex, path))
    decreases Obj(local), 1
  {
    var there, back := DiffOf(local, remote, ex, path), DiffOf(remote, local, ex, path);
    forall key
      ensures key in back <==> key in there
      ensures key in there ==> key in back && back[key] == Swap(there[key])
    {
      EntryInDiff(local, remote, ex, path, key);
      EntryInDiff(remote, local, ex, path, key);
      SwapRawEntry(local, remote, ex, path, key);
      SwapEmpty(RawEntry(local, remote, ex, path, key));
    }
  }

  lemma SwapEmpty(entry: Option<Diff>)
    ensures entry.Some? ==> (IsEmptyEntry(Swap(entry.value)) <==> IsEmptyEntry(entry.value))
  {
  }

  // ---- Pruning ----

  /** No object anywhere in the result is empty. */
  ghost predicate NoEmptyNested(diffs: Diffs)
    decreases Nested(diffs)
  {
    forall key | key in diffs && diffs[key].Nested? :: diffs[key].diffs != map[] && NoEmptyNested(diffs[key].diffs)
  }

  lemma {:induction false} DiffHasNoEmptyNested(local: Fields, remote: Fields, ex: seq<string>, path: string)
    ensures NoEmptyNested(DiffOf(local, remote, ex, path))
    decreases Obj(local)
  {
    forall key | key in DiffOf(local, remote, ex, path) && DiffOf(local, remote, ex, path)[key].Nested?
      ensures var d := DiffOf(local, remote, ex, path)[key].diffs; d != map[] && NoEmptyNested(d)
    {
      EntryInDiff(local, remote, ex, path, key);
      DiffHasNoEmptyNested(local[key].fields, remote[key].fields, ex, KeyPath(path, key));
    }
  }

  // ---- Applying a difference ----

  /** What a key holds after the difference is applied: pushes are set, and pull-only keys deleted. */
  function AppliedAt(diffs: Diffs, remote: Fields, key: string): Option<Json>
    decreases Nested(diffs), 0
  {
    if key !in diffs then if key in remote then Some(remote[key]) else None
    else
      match diffs[key]
      case Change(push, _) => push
      case Nested(inner) =>
        Some(Obj(Apply(inner, if key in remote && remote[key].Obj? then remote[key].fields else map[])))
  }

  function Apply(diffs: Diffs, remote: Fields): Fields
    decreases Nested(diffs), 1
  {
    map key | key in diffs.Keys + remote.Keys && AppliedAt(diffs, remote, key).Some?
      :: AppliedAt(diffs, remote, key).value
  }

  lemma AppliedKey(diffs: Diffs, remote: Fields, key: string)
    ensures var applied, value := Apply(diffs, remote), AppliedAt(diffs, remote, key);
      if key in applied then value == Some(applied[key]) else value == None
  {
  }

  lemma ApplyNothing(remote: Fields)
    ensures Apply(map[], remote) == remote
  {
  }

  /** What is found at the end of a path of keys. */
  datatype Shape = Absent | Object | Scalar(v: Scalar)

  function ShapeAt(t: Json, keys: seq<string>): Shape
    decreases |keys|
  {
    if keys == [] then match t { case Leaf(v) => Shape.Scalar(v) case Obj(_) => Object }
    else if t.Obj? && keys[0] in t.fields then ShapeAt(t.fields[keys[0]], keys[1..])
    else Absent
  }

  lemma ShapeOfKey(fields: Fields, key: string)
    ensures ShapeAt(Obj(fields), [key]) == if key in fields then ShapeAt(fields[key], []) else Absent
  {
  }

  /** The comparison stops at an excluded key on the way: it is reached through objects on both sides. */
  predicate Frozen(local: Fields, remote: Fields, ex: seq<string>, path: string, keys: seq<string>)
    decreases |keys|
  {
    keys != [] &&
    var key := keys[0];
    || Excluded(KeyPath(path, key), ex)
    || (key in local && key in remote && local[key].Obj? && remote[key].Obj?
        && Frozen(local[key].fields, remote[key].fields, ex, KeyPath(path, key), keys[1..]))
  }

  /**
   Applying the difference to the remote side gives the local side at every path that is not frozen,
   and leaves the remote side as it was at every path that is.
   */
  lemma {:induction false} ApplyMerges(
    local: Fields, remote: Fields, ex: seq<string>, path: string, keys: seq<string>)
    ensures ShapeAt(Obj(Apply(DiffOf(local, remote, ex, path), remote)), keys)
         == if Frozen(local, remote, ex, path, keys) then ShapeAt(Obj(remote), keys) else ShapeAt(Obj(local), keys)
    decreases |keys|
  {
    if keys != [] {
      var key := keys[0];
      var diffs := DiffOf(local, remote, ex, path);
      AppliedEntry(local, remote, ex, path, key);
      if key in local && key in remote && local[key].Obj? && remote[key].Obj? {
        ApplyMerges(local[key].fields, remote[key].fields, ex, KeyPath(path, key), keys[1..]);
        ApplyNothing(remote[key].fields);
      }
    }
  }

  /** The merge at one key. */
  lemma AppliedEntry(local: Fields, remote: Fields, ex: seq<string>, path: string, key: string)
    ensures var diffs := DiffOf(local, remote, ex, path);
      var applied := Apply(diffs, remote);
      if Excluded(KeyPath(path, key), ex) then
        if key in remote then key in applied && applied[key] == remote[key] else key !in applied
      else if key !in local then key !in applied
      else if key in remote && local[key].Obj? && remote[key].Obj? then
        && key in applied
        && var inner := DiffOf(local[key].fields, remote[key].fields, ex, KeyPath(path, key));
           applied[key] == Obj(Apply(inner, remote[key].fields))
      else key in applied && applied[key] == local[key]
  {
    var diffs := DiffOf(local, remote, ex, path);
    EntryInDiff(local, remote, ex, path, key);
    AppliedKey(diffs, remote, key);
    if key in remote && remote[key].Obj? {
      ApplyNothing(remote[key].fields);
    }
  }

  /** Paths tell configurations apart: two that look the same everywhere are equal. */
  lemma {:induction false} ShapesDetermine(s: Json, t: Json)
    requires forall keys :: ShapeAt(s, keys) == ShapeAt(t, keys)
    ensures s == t
    decreases s
  {
    assert ShapeAt(s, []) == ShapeAt(t, []);
    if s.Obj? {
      forall key
        ensures key in s.fields <==> key in t.fields
        ensures key in s.fields && key in t.fields ==> s.fields[key] == t.fields[key]
      {
        ShapeOfKey(s.fields, key);
        ShapeOfKey(t.fields, key);
        assert ShapeAt(s, [key]) == ShapeAt(t, [key]);
        if key in s.fields && key in t.fields {
          forall keys
            ensures ShapeAt(s.fields[key], keys) == ShapeAt(t.fields[key], keys)
          {
            assert ([key] + keys)[1..] == keys;
            assert ShapeAt(s, [key] + keys) == ShapeAt(t, [key] + keys);
          }
          ShapesDetermine(s.fields[key], t.fields[key]);
        }
      }
      assert s.fields == t.fields;
    }
  }

  lemma {:induction false} NothingFrozen(local: Fields, remote: Fields, path: string, keys: seq<string>)
    ensures !Frozen(local, remote, [], path, keys)
    decreases |keys|
  {
    if keys != [] {
      var key := keys[0];
      if key in local && key in remote && local[key].Obj? && remote[key].Obj? {
        NothingFrozen(local[key].fields, remote[key].fields, KeyPath(path, key), keys[1..]);
      }
    }
  }

  /** With nothing excluded, the difference turns the remote side into the local one. */
  lemma ApplyGivesLocal(local: Fields, remote: Fields, path: string)
    ensures Apply(DiffOf(local, remote, [], path), remote) == local
  {
    var applied := Apply(DiffOf(local, remote, [], path), remote);
    forall keys
      ensures ShapeAt(Obj(applied), keys) == ShapeAt(Obj(local), keys)
    {
      NothingFrozen(local, remote, path, keys);
      ApplyMerges(local, remote, [], path, keys);
    }
    ShapesDetermine(Obj(applied), Obj(local));
  }

  // ---- When there is nothing to do ----

  /** The two sides look the same wherever the comparison looks. */
  ghost predicate Agree(local: Fields, remote: Fields, ex: seq<string>, path: string) {
    forall keys :: !Frozen(local, remote, ex, path, keys) ==> ShapeAt(Obj(local), keys) == ShapeAt(Obj(remote), keys)
  }

  /** The difference is empty exactly when the sides agree. */
  lemma {:induction false} EmptyIffAgree(local: Fields, remote: Fields, ex: seq<string>, path: string)
    ensures DiffOf(local, remote, ex, path) == map[] <==> Agree(local, remote, ex, path)
    decreases Obj(local)
  {
    if DiffOf(local, remote, ex, path) == map[] {
      ApplyNothing(remote);
      forall keys | !Frozen(local, remote, ex, path, keys)
        ensures ShapeAt(Obj(local), keys) == ShapeAt(Obj(remote), keys)
      {
        ApplyMerges(local, remote, ex, path, keys);
      }
    }
    if Agree(local, remote, ex, path) {
      forall key | key in local.Keys + remote.Keys
        ensures Entry(local, remote, ex, path, key).None?
      {
        if !Excluded(KeyPath(path, key), ex) {
          AgreeBelow(local, remote, ex, path, key);
          if key in local && key in remote && local[key].Obj? && remote[key].Obj? {
            EmptyIffAgree(local[key].fields, remote[key].fields, ex, KeyPath(path, key));
          }
        }
      }
      assert DiffOf(local, remote, ex, path) == map[];
    }
  }

  lemma AgreeBelow(local: Fields, remote: Fields, ex: seq<string>, path: string, key: string)
    requires Agree(local, remote, ex, path) && !Excluded(KeyPath(path, key), ex)
    requires key in local.Keys + remote.Keys
    ensures key in local && key in remote
    ensures if local[key].Obj? && remote[key].Obj?
            then Agree(local[key].fields, remote[key].fields, ex, KeyPath(path, key))
            else local[key] == remote[key]
  {
    assert [key][1..] == [];
    assert !Frozen(local, remote, ex, path, [key]);
    ShapeOfKey(local, key);
    ShapeOfKey(remote, key);
    if local[key].Obj? && remote[key].Obj? {
      forall keys | !Frozen(local[key].fields, remote[key].fields, ex, KeyPath(path, key), keys)
        ensures ShapeAt(local[key], keys) == ShapeAt(remote[key], keys)
      {
        var all := [key] + keys;
        assert all[1..] == keys;
        assert !Frozen(local, remote, ex, path, all);
        assert ShapeAt(Obj(local), all) == ShapeAt(Obj(remote), all);
      }
    }
  }

  /** Pushing once is enough: after the difference is applied, there is none left. */
  lemma PushOnce(local: Fields, remote: Fields, ex: seq<string>, path: string)
    ensures DiffOf(local, Apply(DiffOf(local, remote, ex, path), remote), ex, path) == map[]
  {
    var applied := Apply(DiffOf(local, remote, ex, path), remote);
    forall keys | !Frozen(local, applied, ex, path, keys)
      ensures ShapeAt(Obj(local), keys) == ShapeAt(Obj(applied), keys)
    {
      ApplyMerges(local, remote, ex, path, keys);
      if Frozen(local, remote, ex, path, keys) {
        StaysFrozen(local, remote, ex, path, keys);
      }
    }
    EmptyIffAgree(local, applied, ex, path);
  }

  lemma {:induction false} StaysFrozen(
    local: Fields, remote: Fields, ex: seq<string>, path: string, keys: seq<string>)
    requires Frozen(local, remote, ex, path, keys)
    ensures Frozen(local, Apply(DiffOf(local, remote, ex, path), remote), ex, path, keys)
    decreases |keys|
  {
    var key := keys[0];
    if !Excluded(KeyPath(path, key), ex) {
      AppliedEntry(local, remote, ex, path, key);
      StaysFrozen(local[key].fields, remote[key].fields, ex, KeyPath(path, key), keys[1..]);
    }
  }

  // ---- Excluded paths ----

  function PathOf(path: string, keys: seq<string>): string
    decreases |keys|
  {
    if keys == [] then path else PathOf(KeyPath(path, keys[0]), keys[1..])
  }

  function JoinDots(keys: seq<string>): string {
    if keys == [] then "" else if |keys| == 1 then keys[0] else keys[0] + "." + JoinDots(keys[1..])
  }

  /** The keys from the first one on that is not empty. */
  function DropEmpty(keys: seq<string>): seq<string> {
    if keys != [] && keys[0] == "" then DropEmpty(keys[1..]) else keys
  }

  /** The path of a key sequence is its keys with dots between them; at the top level, empty keys in front vanish. */
  lemma {:induction false} PathOfJoins(path: string, keys: seq<string>)
    requires keys != []
    ensures PathOf(path, keys) == if path == "" then JoinDots(DropEmpty(keys)) else path + "." + JoinDots(keys)
    decreases |keys|
  {
    var first := KeyPath(path, keys[0]);
    if |keys| == 1 {
      assert keys[1..] == [];
      assert PathOf(first, []) == first;
    } else {
      PathOfJoins(first, keys[1..]);
      assert path != "" ==> first + "." + JoinDots(keys[1..]) == path + "." + (keys[0] + "." + JoinDots(keys[1..]));
    }
  }

  /** Both sides hold objects all the way down to the last key. */
  predicate ObjectsAlong(local: Fields, remote: Fields, keys: seq<string>)
    decreases |keys|
  {
    |keys| <= 1 ||
    var key := keys[0];
    && key in local && key in remote && local[key].Obj? && remote[key].Obj?
    && ObjectsAlong(local[key].fields, remote[key].fields, keys[1..])
  }

  /** An excluded path below objects on both sides is never written. */
  lemma {:induction false} ExcludedIsKept(
    local: Fields, remote: Fields, ex: seq<string>, path: string, keys: seq<string>)
    requires keys != [] && PathOf(path, keys) in ex && ObjectsAlong(local, remote, keys)
    ensures Frozen(local, remote, ex, path, keys)
    ensures ShapeAt(Obj(Apply(DiffOf(local, remote, ex, path), remote)), keys) == ShapeAt(Obj(remote), keys)
    decreases |keys|
  {
    var key := keys[0];
    ApplyMerges(local, remote, ex, path, keys);
    if |keys| == 1 {
      assert PathOf(path, keys) == PathOf(KeyPath(path, key), []) == KeyPath(path, key) by {
        assert keys[1..] == [];
      }
    } else {
      ExcludedIsKept(local[key].fields, remote[key].fields, ex, KeyPath(path, key), keys[1..]);
    }
  }

  /** An excluded top-level key, and everything below it, is never written, whatever the two sides hold. */
  lemma TopLevelExclusionIsKept(local: Fields, remote: Fields, ex: seq<string>, keys: seq<string>)
    requires keys != [] && keys[0] in ex
    ensures Frozen(local, remote, ex, "", keys)
    ensures ShapeAt(Obj(Apply(DiffOf(local, remote, ex, ""), remote)), keys) == ShapeAt(Obj(remote), keys)
  {
    ApplyMerges(local, remote, ex, "", keys);
  }

  /** The first `k` keys make an excluded path that is reached through objects on both sides. */
  predicate ExcludedAt(local: Fields, remote: Fields, ex: seq<string>, path: string, keys: seq<string>, k: nat) {
    1 <= k <= |keys| && PathOf(path, keys[..k]) in ex && ObjectsAlong(local, remote, keys[..k])
  }

  lemma ExcludedBelow(local: Fields, remote: Fields, ex: seq<string>, path: string, keys: seq<string>, k: nat)
    requires 1 < k <= |keys|
    ensures var key := keys[0];
      ExcludedAt(local, remote, ex, path, keys, k) <==>
        && key in local && key in remote && local[key].Obj? && remote[key].Obj?
        && ExcludedAt(local[key].fields, remote[key].fields, ex, KeyPath(path, key), keys[1..], k - 1)
  {
    assert keys[..k][1..] == keys[1..][..k - 1];
  }

  lemma ExcludedFirst(local: Fields, remote: Fields, ex: seq<string>, path: string, keys: seq<string>)
    requires keys != []
    ensures ExcludedAt(local, remote, ex, path, keys, 1) <==> KeyPath(path, keys[0]) in ex
  {
    assert keys[..1][1..] == [];
    assert PathOf(path, keys[..1]) == PathOf(KeyPath(path, keys[0]), []);
  }

  /** A path is frozen exactly when it, or a path above it, is excluded and reached through objects on both sides. */
  lemma {:induction false} FrozenIff(local: Fields, remote: Fields, ex: seq<string>, path: string, keys: seq<string>)
    ensures Frozen(local, remote, ex, path, keys) <==> exists k :: ExcludedAt(local, remote, ex, path, keys, k)
    decreases |keys|
  {
    if keys != [] {
      var key := keys[0];
      ExcludedFirst(local, remote, ex, path, keys);
      if key in local && key in remote && local[key].Obj? && remote[key].Obj? {
        FrozenIff(local[key].fields, remote[key].fields, ex, KeyPath(path, key), keys[1..]);
        if k: nat :| ExcludedAt(local[key].fields, remote[key].fields, ex, KeyPath(path, key), keys[1..], k) {
          ExcludedBelow(local, remote, ex, path, keys, k + 1);
        }
      }
      if k: nat :| ExcludedAt(local, remote, ex, path, keys, k) {
        if k > 1 {
          ExcludedBelow(local, remote, ex, path, keys, k);
        }
      }
    }
  }

  /** The remote side keeps what it has at a path exactly when the path is frozen or the sides agree there anyway. */
  lemma RemoteKeptIff(local: Fields, remote: Fields, ex: seq<string>, path: string, keys: seq<string>)
    ensures ShapeAt(Obj(Apply(DiffOf(local, remote, ex, path), remote)), keys) == ShapeAt(Obj(remote), keys) <==>
      Frozen(local, remote, ex, path, keys) || ShapeAt(Obj(local), keys) == ShapeAt(Obj(remote), keys)
  {
    ApplyMerges(local, remote, ex, path, keys);
  }

  /** A dotted one can be, without objects on both sides: pushing a whole subtree pushes what is excluded inside it. */
  lemma PushedSubtreeOverwritesExcluded()
    ensures exists local: Fields, remote: Fields, ex, keys ::
      && keys != [] && PathOf("", keys) in ex
      && ShapeAt(Obj(Apply(DiffOf(local, remote, ex, ""), remote)), keys) != ShapeAt(Obj(remote), keys)
  {
    var local: Fields := map["a" := Obj(map["b" := Leaf(Number(1))])];
    var remote: Fields := map[];
    var ex, keys := ["a.b"], ["a", "b"];
    assert keys[1..] == ["b"] && ["b"][1..] == [];
    assert PathOf("", keys) == PathOf("a", ["b"]) == PathOf("a.b", []) == "a.b";
    assert ShapeAt(Obj(local), keys) == ShapeAt(local["a"], ["b"]) == ShapeAt(Leaf(Number(1)), []);
    ApplyMerges(local, remote, ex, "", keys);
    assert !Excluded("a", ex) by { assert |"a"| != |"a.b"|; }
    assert !Frozen(local, remote, ex, "", keys);
    assert ShapeAt(Obj(remote), keys) == Absent;
  }
}
