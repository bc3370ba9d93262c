/**
 The recursive, copy-on-write merge of one property dictionary into another
 (NootedBlue/DisplayMergeNub.cpp).

 Dictionaries are heap objects that may share nested dictionaries, so the model has two levels:
 `Tree` is what a dictionary contains, and `Dictionary` is the object that contains it.  The merge
 is specified on trees and carried out on objects.
 */
module DictionaryMerge {
  import opened Options

  /** The contents of a property value: a scalar property, or a dictionary of named values. */
  datatype Tree = Leaf(value: int) | Node(entries: map<string, Tree>)

  // ---------------------------------------------------------------------------------------------
  // The merge on trees
  // ---------------------------------------------------------------------------------------------

  /** `s` laid over `t`: two dictionaries merge key by key, anything else is replaced by `s`. */
  ghost function DeepMerge(s: Tree, t: Tree): Tree
    decreases s
  {
    if s.Node? && t.Node? then MergedOn(s, t, s.entries.Keys) else s
  }

  /** What the target holds once exactly the source keys in `done` have been merged. */
  ghost function MergedOn(s: Tree, t: Tree, done: set<string>): Tree
    requires s.Node? && t.Node? && done <= s.entries.Keys
    decreases s, 0
  {
    Node(map k | k in t.entries.Keys + done ::
           if k !in done then t.entries[k]
           else if k in t.entries then DeepMerge(s.entries[k], t.entries[k])
           else s.entries[k])
  }

  /** The merge succeeds: an empty source dictionary counts as a failure, at every level reached. */
  ghost predicate Succeeds(s: Tree, t: Tree)
    requires s.Node? && t.Node?
    decreases s
  {
    s.entries != map[] && forall k :: k in s.entries ==> KeySucceeds(s, t, k)
  }

  /** Only a dictionary laid over a dictionary can fail. */
  ghost predicate KeySucceeds(s: Tree, t: Tree, k: string)
    requires s.Node? && t.Node? && k in s.entries
    decreases s, 0
  {
    k in t.entries && s.entries[k].Node? && t.entries[k].Node? ==>
      Succeeds(s.entries[k], t.entries[k])
  }

  /** No dictionary in the tree is empty, the tree itself included. */
  ghost predicate NoEmptyDictionary(s: Tree) {
    s.Node? ==> s.entries != map[] && forall k :: k in s.entries ==> NoEmptyDictionary(s.entries[k])
  }

  /** A source merges into every target exactly when it holds no empty dictionary at any depth. */
  lemma SucceedsEverywhereIffNoEmpty(s: Tree)
    requires s.Node?
    ensures NoEmptyDictionary(s) <==> forall t: Tree :: t.Node? ==> Succeeds(s, t)
  {
    if NoEmptyDictionary(s) {
      forall t: Tree | t.Node? ensures Succeeds(s, t) { NoEmptySucceeds(s, t); }
    }
    if Succeeds(s, s) { SelfMergeNoEmpty(s); }
  }

  lemma {:induction false} NoEmptySucceeds(s: Tree, t: Tree)
    requires s.Node? && t.Node? && NoEmptyDictionary(s)
    ensures Succeeds(s, t)
    decreases s
  {
    forall k | k in s.entries ensures KeySucceeds(s, t, k) {
      if k in t.entries && s.entries[k].Node? && t.entries[k].Node? {
        NoEmptySucceeds(s.entries[k], t.entries[k]);
      }
    }
  }

  lemma {:induction false} SelfMergeNoEmpty(s: Tree)
    requires s.Node? && Succeeds(s, s)
    ensures NoEmptyDictionary(s)
    decreases s
  {
    forall k | k in s.entries ensures NoEmptyDictionary(s.entries[k]) {
      assert KeySucceeds(s, s, k);
      if s.entries[k].Node? { SelfMergeNoEmpty(s.entries[k]); }
    }
  }

  /** Laying the same source over the result once more changes nothing. */
  lemma {:induction false} DeepMergeIdempotent(s: Tree, t: Tree)
    ensures DeepMerge(s, DeepMerge(s, t)) == DeepMerge(s, t)
    decreases s
  {
    if s.Node? {
      forall k | k in s.entries
        ensures t.Node? && k in t.entries ==>
                  DeepMerge(s.entries[k], DeepMerge(s.entries[k], t.entries[k])) == DeepMerge(s.entries[k], t.entries[k])
        ensures DeepMerge(s.entries[k], s.entries[k]) == s.entries[k]
      {
        if t.Node? && k in t.entries { DeepMergeIdempotent(s.entries[k], t.entries[k]); }
        DeepMergeIdempotent(s.entries[k], Leaf(0));
      }
    }
  }

  // ---------------------------------------------------------------------------------------------
  // What the merge means for a single property, named by its path
  // ---------------------------------------------------------------------------------------------

  /** The value found by following `path` from the root, if every step exists. */
  ghost function At(t: Tree, path: seq<string>): Option<Tree>
    decreases path
  {
    if path == [] then Some(t)
    else if t.Node? && path[0] in t.entries then At(t.entries[path[0]], path[1..])
    else None
  }

  /** The source has its own say about `path`: it defines it, or a scalar on the way to it. */
  ghost predicate Overrides(s: Tree, path: seq<string>)
    decreases path
  {
    path == [] || s.Leaf? || (path[0] in s.entries && Overrides(s.entries[path[0]], path[1..]))
  }

  /**
   A path holds scalar `v` after the merge exactly when the source holds `v` there, or the target
   did and the source does not override it.
   */
  lemma {:induction false} MergedScalars(s: Tree, t: Tree, path: seq<string>, v: int)
    ensures At(DeepMerge(s, t), path) == Some(Leaf(v)) <==>
            At(s, path) == Some(Leaf(v)) || (At(t, path) == Some(Leaf(v)) && !Overrides(s, path))
    decreases path
  {
    if path != [] && s.Node? {
      var k, rest := path[0], path[1..];
      if k in s.entries && t.Node? && k in t.entries {
        MergedScalars(s.entries[k], t.entries[k], rest, v);
      }
    }
  }

  /**
   And it holds a dictionary exactly when the source holds one there, or the target did and the source
   does not override it.
   */
  lemma {:induction false} MergedDictionaries(s: Tree, t: Tree, path: seq<string>)
    ensures HasDictionary(DeepMerge(s, t), path) <==>
            HasDictionary(s, path) || (HasDictionary(t, path) && !Overrides(s, path))
    decreases path
  {
    if path == [] || s.Leaf? {
    } else {
      var k, rest := path[0], path[1..];
      if k in s.entries && t.Node? && k in t.entries {
        MergedDictionaries(s.entries[k], t.entries[k], rest);
      }
    }
  }

  // ---------------------------------------------------------------------------------------------
  // Which merges succeed
  // ---------------------------------------------------------------------------------------------

  ghost predicate HasDictionary(t: Tree, path: seq<string>) {
    At(t, path).Some? && At(t, path).value.Node?
  }

  ghost predicate HasEmptyDictionary(t: Tree, path: seq<string>) {
    At(t, path) == Some(Node(map[]))
  }

  /** A merge succeeds if and only if the source nowhere has an empty dictionary where the target has a dictionary. */
  lemma SucceedsIff(s: Tree, t: Tree)
    requires s.Node? && t.Node?
    ensures Succeeds(s, t) <==> !exists path :: HasEmptyDictionary(s, path) && HasDictionary(t, path)
  {
    if path :| HasEmptyDictionary(s, path) && HasDictionary(t, path) {
      EmptyDictionaryFails(s, t, path);
    } else {
      NoEmptyPathSucceeds(s, t);
    }
  }

  lemma DictionaryOnTheWay(t: Tree, path: seq<string>)
    requires HasDictionary(t, path)
    ensures t.Node?
  {
  }

  lemma {:induction false} EmptyDictionaryFails(s: Tree, t: Tree, path: seq<string>)
    requires s.Node? && t.Node? && HasEmptyDictionary(s, path) && HasDictionary(t, path)
    ensures !Succeeds(s, t)
    decreases path
  {
    if path == [] {
    } else {
      var k, rest := path[0], path[1..];
      DictionaryOnTheWay(s.entries[k], rest);
      DictionaryOnTheWay(t.entries[k], rest);
      EmptyDictionaryFails(s.entries[k], t.entries[k], rest);
      assert !KeySucceeds(s, t, k);
    }
  }

  lemma {:induction false} NoEmptyPathSucceeds(s: Tree, t: Tree)
    requires s.Node? && t.Node? && forall path :: HasEmptyDictionary(s, path) ==> !HasDictionary(t, path)
    ensures Succeeds(s, t)
    decreases s
  {
    assert s.entries != map[] by { assert HasDictionary(t, []) && !HasEmptyDictionary(s, []); }
    forall k | k in s.entries ensures KeySucceeds(s, t, k) {
      if k in t.entries && s.entries[k].Node? && t.entries[k].Node? {
        forall path | HasEmptyDictionary(s.entries[k], path) ensures !HasDictionary(t.entries[k], path) {
          assert ([k] + path)[1..] == path;
          assert HasEmptyDictionary(s, [k] + path);
        }
        NoEmptyPathSucceeds(s.entries[k], t.entries[k]);
      }
    }
  }

  // ---------------------------------------------------------------------------------------------
  // Dictionary objects
  // ---------------------------------------------------------------------------------------------

  /** A property value: a scalar, or a reference to a dictionary object. */
  datatype Object = Scalar(value: int) | Nested(dict: Dictionary)

  class Dictionary {
    var entries: map<string, Object>
    /** Every dictionary reachable from this one, itself included. */
    ghost var Repr: set<Dictionary>
    /** The tree this dictionary stands for. */
    ghost var Contents: Tree

    /** The dictionaries below this one are finite, acyclic and valid, and `Contents` is their tree. */
    ghost predicate Valid()
      reads this, Repr
      decreases Repr
      ensures Valid() ==> this in Repr && Contents.Node?
    {
      this in Repr &&
      Contents.Node? && Contents.entries.Keys == entries.Keys &&
      forall k :: k in entries ==> Holds(entries[k], Contents.entries[k])
    }

    /** The property value `o` stands for tree `t`; a nested dictionary lies strictly below this one. */
    ghost predicate Holds(o: Object, t: Tree)
      requires this in Repr
      reads this, Repr
      decreases Repr, 0
    {
      match o
      case Scalar(v) => t == Leaf(v)
      case Nested(d) => d in Repr && d.Repr <= Repr - {this} && d.Valid() && d.Contents == t
    }

    /** A new dictionary with the same entries; nested dictionaries are shared, not copied. */
    constructor WithDictionary(original: Dictionary)
      requires original.Valid()
      ensures Valid() && entries == original.entries && Contents == original.Contents
      ensures Repr == original.Repr - {original} + {this}
    {
      entries := original.entries;
      Repr := original.Repr - {original} + {this};
      Contents := original.Contents;
      new;
      assert forall k :: k in entries ==> original.Holds(entries[k], Contents.entries[k]);
    }

    method SetObject(key: string, value: Object, ghost tree: Tree)
      requires Valid()
      requires value.Scalar? ==> tree == Leaf(value.value)
      requires value.Nested? ==> value.dict.Valid() && this !in value.dict.Repr && tree == value.dict.Contents
      modifies this
      ensures Valid() && entries == old(entries)[key := value]
      ensures Repr == old(Repr) + if value.Nested? then value.dict.Repr else {}
      ensures Contents == Node(old(Contents).entries[key := tree])
    {
      assert forall k :: k in entries ==> Holds(entries[k], Contents.entries[k]);
      entries := entries[key := value];
      Repr := Repr + if value.Nested? then value.dict.Repr else {};
      Contents := Node(Contents.entries[key := tree]);
    }
  }

  /** The value a merged key ends up with. */
  ghost function MergedValue(s: Tree, t: Tree, k: string): Tree
    requires s.Node? && t.Node? && k in s.entries
  {
    if k in t.entries then DeepMerge(s.entries[k], t.entries[k]) else s.entries[k]
  }

  lemma MergedOnNext(s: Tree, t: Tree, done: set<string>, k: string)
    requires s.Node? && t.Node? && done <= s.entries.Keys && k in s.entries && k !in done
    ensures MergedOn(s, t, done + {k}) == Node(MergedOn(s, t, done).entries[k := MergedValue(s, t, k)])
    ensures MergedValue(s, MergedOn(s, t, done), k) == MergedValue(s, t, k)
    ensures KeySucceeds(s, MergedOn(s, t, done), k) <==> KeySucceeds(s, t, k)
  {
    assert MergedOn(s, t, done + {k}).entries == MergedOn(s, t, done).entries[k := MergedValue(s, t, k)];
  }

  /** The keys of a dictionary in some order, each once: what an iterator over it yields. */
  ghost predicate IsOrder(order: seq<string>, keys: set<string>) {
    && (forall k :: k in order <==> k in keys)
    && (forall i, j :: 0 <= i < j < |order| ==> order[i] != order[j])
  }

  ghost function KeysOf(order: seq<string>): set<string> {
    set k | k in order
  }

  /** The number of keys merged before the first one that fails. */
  ghost function MergedBeforeFailure(s: Tree, t: Tree, order: seq<string>): (n: nat)
    requires s.Node? && t.Node? && forall k :: k in order ==> k in s.entries
    ensures n <= |order|
  {
    if order == [] || !KeySucceeds(s, t, order[0]) then 0 else 1 + MergedBeforeFailure(s, t, order[1..])
  }

  /** The keys merged when the source keys come in the given order: those before the first failing one. */
  ghost function DoneIn(s: Tree, t: Tree, order: seq<string>): (done: set<string>)
    requires s.Node? && t.Node? && forall k :: k in order ==> k in s.entries
    ensures done <= s.entries.Keys
  {
    KeysOf(order[..MergedBeforeFailure(s, t, order)])
  }

  /** The contents of the target after merging in the given order, complete or cut short. */
  ghost function MergedInOrder(s: Tree, t: Tree, order: seq<string>): Tree
    requires s.Node? && t.Node? && IsOrder(order, s.entries.Keys)
  {
    MergedOn(s, t, DoneIn(s, t, order))
  }

  lemma {:induction false} MergedBeforeFailureIs(s: Tree, t: Tree, order: seq<string>, n: nat)
    requires s.Node? && t.Node? && (forall k :: k in order ==> k in s.entries) && n <= |order|
    requires forall i :: 0 <= i < n ==> KeySucceeds(s, t, order[i])
    requires n == |order| || !KeySucceeds(s, t, order[n])
    ensures MergedBeforeFailure(s, t, order) == n
    decreases |order|
  {
    if n == 0 {
    } else {
      MergedBeforeFailureIs(s, t, order[1..], n - 1);
    }
  }

  lemma {:induction false} DoneSucceeds(s: Tree, t: Tree, order: seq<string>, i: nat)
    requires s.Node? && t.Node? && (forall k :: k in order ==> k in s.entries) && i < MergedBeforeFailure(s, t, order)
    ensures KeySucceeds(s, t, order[i])
    decreases |order|
  {
    if i == 0 {
    } else {
      DoneSucceeds(s, t, order[1..], i - 1);
    }
  }

  /** A merge that succeeds has merged every key, so the order makes no difference. */
  lemma SuccessMergesAll(s: Tree, t: Tree, order: seq<string>)
    requires s.Node? && t.Node? && IsOrder(order, s.entries.Keys) && Succeeds(s, t)
    ensures MergedInOrder(s, t, order) == DeepMerge(s, t)
  {
    forall i | 0 <= i < |order| ensures KeySucceeds(s, t, order[i]) { assert order[i] in s.entries; }
    MergedBeforeFailureIs(s, t, order, |order|);
    assert order[..|order|] == order && KeysOf(order) == s.entries.Keys;
  }

  lemma {:induction false} SomeOrder(keys: set<string>) returns (order: seq<string>)
    ensures IsOrder(order, keys)
    decreases keys
  {
    order := [];
    if keys != {} {
      var k :| k in keys;
      var rest := SomeOrder(keys - {k});
      order := [k] + rest;
    }
  }

  /** The target already holds what merging the key would give it. */
  ghost predicate AlreadyMerged(s: Tree, t: Tree, k: string)
    requires s.Node? && t.Node? && k in s.entries
  {
    k in t.entries && MergedValue(s, t, k) == t.entries[k]
  }

  /** A key that can be merged is merged in some order: one in which it comes first. */
  lemma MergedInSomeOrder(s: Tree, t: Tree, k: string) returns (order: seq<string>)
    requires s.Node? && t.Node? && k in s.entries && KeySucceeds(s, t, k)
    ensures IsOrder(order, s.entries.Keys) && k in DoneIn(s, t, order)
  {
    var rest := SomeOrder(s.entries.Keys - {k});
    order := [k] + rest;
    assert order[..MergedBeforeFailure(s, t, order)][0] == k;
  }

  /**
   A merge leaves the target as it was, in whatever order the keys come, if and only if every key that
   merges successfully is in the target already, with the value it would get.
   */
  lemma UnchangedInEveryOrderIff(s: Tree, t: Tree)
    requires s.Node? && t.Node?
    ensures (forall order :: IsOrder(order, s.entries.Keys) ==> MergedInOrder(s, t, order) == t) <==>
            (forall k :: k in s.entries && KeySucceeds(s, t, k) ==> AlreadyMerged(s, t, k))
  {
    if forall k :: k in s.entries && KeySucceeds(s, t, k) ==> AlreadyMerged(s, t, k) {
      forall order | IsOrder(order, s.entries.Keys) ensures MergedInOrder(s, t, order) == t {
        UnchangedInOrder(s, t, order);
      }
    }
    if forall order :: IsOrder(order, s.entries.Keys) ==> MergedInOrder(s, t, order) == t {
      forall k | k in s.entries && KeySucceeds(s, t, k) ensures AlreadyMerged(s, t, k) {
        var order := MergedInSomeOrder(s, t, k);
        DoneKeyValue(s, t, DoneIn(s, t, order), k);
      }
    }
  }

  lemma DoneKeyValue(s: Tree, t: Tree, done: set<string>, k: string)
    requires s.Node? && t.Node? && done <= s.entries.Keys && k in done
    ensures k in MergedOn(s, t, done).entries && MergedOn(s, t, done).entries[k] == MergedValue(s, t, k)
  {
  }

  lemma UnchangedInOrder(s: Tree, t: Tree, order: seq<string>)
    requires s.Node? && t.Node? && IsOrder(order, s.entries.Keys)
    requires forall k :: k in s.entries && KeySucceeds(s, t, k) ==> AlreadyMerged(s, t, k)
    ensures MergedInOrder(s, t, order) == t
  {
    var n := MergedBeforeFailure(s, t, order);
    forall i | 0 <= i < n ensures KeySucceeds(s, t, order[i]) { DoneSucceeds(s, t, order, i); }
    assert forall k :: k in DoneIn(s, t, order) ==> AlreadyMerged(s, t, k);
    assert MergedInOrder(s, t, order).entries == t.entries;
  }

  /**
   A failed merge that does change the target: {a: 1, b: {}} over {b: {}} fails at b, and leaves a
   merged exactly when a comes first.
   */
  lemma FailedMergeKeepsKeys()
    ensures var s, t := Node(map["a" := Leaf(1), "b" := Node(map[])]), Node(map["b" := Node(map[])]);
            && !Succeeds(s, t)
            && IsOrder(["a", "b"], s.entries.Keys) && IsOrder(["b", "a"], s.entries.Keys)
            && MergedInOrder(s, t, ["a", "b"]) == Node(map["a" := Leaf(1), "b" := Node(map[])])
            && MergedInOrder(s, t, ["b", "a"]) == t
  {
    var s, t := Node(map["a" := Leaf(1), "b" := Node(map[])]), Node(map["b" := Node(map[])]);
    assert "a" != "b";
    assert !KeySucceeds(s, t, "b") && KeySucceeds(s, t, "a");
    var ab, ba := ["a", "b"], ["b", "a"];
    assert forall k :: k in ab <==> k in s.entries.Keys;
    assert forall k :: k in ba <==> k in s.entries.Keys;
    MergedBeforeFailureIs(s, t, ab, 1);
    MergedBeforeFailureIs(s, t, ba, 0);
    assert ab[..1] == ["a"] && KeysOf(["a"]) == {"a"};
    assert ba[..0] == [] && KeysOf([]) == {};
    assert MergedOn(s, t, {"a"}).entries == s.entries;
    assert MergedOn(s, t, {}).entries == t.entries;
  }

  /** An iterator over the keys, which may come in any order. */
  method IterationOrder(keys: set<string>) returns (order: seq<string>)
    ensures IsOrder(order, keys)
  {
    order := [];
    var remaining := keys;
    while remaining != {}
      invariant remaining <= keys && IsOrder(order, keys - remaining)
      decreases remaining
    {
      var key :| key in remaining;
      remaining := remaining - {key};
      order := order + [key];
    }
    assert keys - remaining == keys;
  }

  /** A dictionary laid over a dictionary: merges into a copy, which replaces the old one on success. */
  method MergeNested(target: Dictionary, key: string, source: Dictionary) returns (result: bool)
    requires source.Valid() && target.Valid() && target !in source.Repr
    requires key in target.entries && target.entries[key].Nested?
    modifies target
    decreases source.Repr, 4
    ensures target.Valid() && fresh(target.Repr - old(target.Repr) - source.Repr)
    ensures old(target.Contents).entries[key].Node?
    ensures result <==> Succeeds(source.Contents, old(target.Contents).entries[key])
    ensures target.Contents ==
            if result
            then Node(old(target.Contents).entries[key := DeepMerge(source.Contents, old(target.Contents).entries[key])])
            else old(target.Contents)
    ensures !result ==> unchanged(target)
  {
    var child := target.entries[key].dict;
    assert target.Holds(target.entries[key], target.Contents.entries[key]);
    var copy := new Dictionary.WithDictionary(child);
    result := MergeWhole(source, copy);
    if result {
      target.SetObject(key, Nested(copy), copy.Contents);
    }
  }

  /** One turn of the merge loop: the source's entry for `key` goes into `target`. */
  method MergeEntry(source: Dictionary, target: Dictionary, key: string) returns (result: bool)
    requires source.Valid() && target.Valid() && target !in source.Repr
    requires key in source.entries
    modifies target
    decreases source.Repr, 0
    ensures target.Valid() && fresh(target.Repr - old(target.Repr) - source.Repr)
    ensures result <==> KeySucceeds(source.Contents, old(target.Contents), key)
    ensures target.Contents ==
            if result
            then Node(old(target.Contents).entries[key := MergedValue(source.Contents, old(target.Contents), key)])
            else old(target.Contents)
    ensures !result ==> unchanged(target)
  {
    var value := source.entries[key];
    assert source.Holds(value, source.Contents.entries[key]);
    if key in target.entries && target.entries[key].Nested? && value.Nested? {
      result := MergeNested(target, key, value.dict);
    } else {
      assert key in target.entries ==> target.Holds(target.entries[key], target.Contents.entries[key]);
      target.SetObject(key, value, source.Contents.entries[key]);
      result := true;
    }
  }

  /** After i keys of an order: exactly those are merged, and none of them failed. */
  ghost predicate MergedSoFar(s: Tree, t: Tree, order: seq<string>, i: nat, now: Tree)
    requires s.Node? && t.Node? && IsOrder(order, s.entries.Keys) && i <= |order|
  {
    && (forall j :: 0 <= j < i ==> KeySucceeds(s, t, order[j]))
    && KeysOf(order[..i]) <= s.entries.Keys
    && now == MergedOn(s, t, KeysOf(order[..i]))
  }

  lemma MergedSoFarStart(s: Tree, t: Tree, order: seq<string>)
    requires s.Node? && t.Node? && IsOrder(order, s.entries.Keys)
    ensures MergedSoFar(s, t, order, 0, t)
  {
    assert KeysOf(order[..0]) == {};
    assert t.entries == MergedOn(s, t, {}).entries;
  }

  /** What one more key does to a target that is merged so far. */
  lemma MergedSoFarNext(s: Tree, t: Tree, order: seq<string>, i: nat, now: Tree)
    requires s.Node? && t.Node? && IsOrder(order, s.entries.Keys) && i < |order| && MergedSoFar(s, t, order, i, now)
    ensures order[i] in s.entries && (KeySucceeds(s, now, order[i]) <==> KeySucceeds(s, t, order[i]))
    ensures KeySucceeds(s, t, order[i]) ==>
              MergedSoFar(s, t, order, i + 1, Node(now.entries[order[i] := MergedValue(s, now, order[i])]))
    ensures !KeySucceeds(s, t, order[i]) ==> now == MergedInOrder(s, t, order) && !Succeeds(s, t)
  {
    var k := order[i];
    assert k in order && k in s.entries;
    KeysOfNext(order, i, s.entries.Keys);
    MergedOnNext(s, t, KeysOf(order[..i]), k);
    if !KeySucceeds(s, t, k) { MergedBeforeFailureIs(s, t, order, i); }
  }

  lemma KeysOfNext(order: seq<string>, i: nat, keys: set<string>)
    requires IsOrder(order, keys) && i < |order|
    ensures order[i] !in KeysOf(order[..i]) && KeysOf(order[..i + 1]) == KeysOf(order[..i]) + {order[i]}
  {
    assert order[..i + 1] == order[..i] + [order[i]];
  }

  lemma MergedSoFarEnd(s: Tree, t: Tree, order: seq<string>, now: Tree)
    requires s.Node? && t.Node? && IsOrder(order, s.entries.Keys) && MergedSoFar(s, t, order, |order|, now)
    ensures now == MergedInOrder(s, t, order)
    ensures Succeeds(s, t) <==> order != []
  {
    MergedBeforeFailureIs(s, t, order, |order|);
    if order != [] {
      assert order[0] in s.entries;
      forall k | k in s.entries ensures KeySucceeds(s, t, k) {
        assert k in order;
      }
    } else {
      assert s.entries.Keys == {};
    }
  }

  /** Turn i of the merge loop, over a target that held `t` when the loop began. */
  method MergeTurn(source: Dictionary, target: Dictionary, keys: seq<string>, i: nat, ghost t: Tree) returns (result: bool)
    requires source.Valid() && target.Valid() && target !in source.Repr
    requires t.Node? && IsOrder(keys, source.Contents.entries.Keys) && i < |keys|
    requires MergedSoFar(source.Contents, t, keys, i, target.Contents)
    modifies target
    decreases source.Repr, 1
    ensures target.Valid() && fresh(target.Repr - old(target.Repr) - source.Repr)
    ensures result ==> MergedSoFar(source.Contents, t, keys, i + 1, target.Contents)
    ensures !result ==> target.Contents == MergedInOrder(source.Contents, t, keys) && !Succeeds(source.Contents, t)
  {
    MergedSoFarNext(source.Contents, t, keys, i, target.Contents);
    result := MergeEntry(source, target, keys[i]);
  }

  /**
   Merges `source` into `target`, taking the source keys in the order in which the iterator yields them
   and stopping at the first failure.
   */
  method MergeEntries(source: Dictionary, target: Dictionary, order: seq<string>) returns (result: bool)
    requires source.Valid() && target.Valid() && target !in source.Repr
    requires IsOrder(order, source.entries.Keys)
    modifies target
    decreases source.Repr, 2
    ensures target.Valid() && fresh(target.Repr - old(target.Repr) - source.Repr)
    ensures target.Contents == MergedInOrder(source.Contents, old(target.Contents), order)
    ensures result <==> Succeeds(source.Contents, old(target.Contents))
  {
    result := false;
    ghost var s, t := source.Contents, target.Contents;
    MergedSoFarStart(s, t, order);
    for i := 0 to |order|
      invariant target.Valid() && source.Valid() && source.Contents == s
      invariant fresh(target.Repr - old(target.Repr) - source.Repr)
      invariant result <==> i > 0
      invariant MergedSoFar(s, t, order, i, target.Contents)
    {
      result := MergeTurn(source, target, order, i, t);
      if !result {
        return;
      }
    }
    MergedSoFarEnd(s, t, order, target.Contents);
  }

  /** The merge for callers that look at the target only after success. */
  method MergeWhole(source: Dictionary, target: Dictionary) returns (result: bool)
    requires source.Valid() && target.Valid() && target !in source.Repr
    modifies target
    decreases source.Repr, 3
    ensures target.Valid() && fresh(target.Repr - old(target.Repr) - source.Repr)
    ensures result <==> Succeeds(source.Contents, old(target.Contents))
    ensures result ==> target.Contents == DeepMerge(source.Contents, old(target.Contents))
  {
    var order := IterationOrder(source.entries.Keys);
    result := MergeEntries(source, target, order);
    if result { SuccessMergesAll(source.Contents, old(target.Contents), order); }
  }

  /**
   The merge as callers see it, null arguments included.  Success or not, the target ends up merged up
   to the first failing key of `order`, the order in which the iterator yields the keys.
   */
  method MergeDictionaryIntoDictionary(source: Dictionary?, target: Dictionary?, order: seq<string>)
    returns (result: bool)
    requires source != null ==> source.Valid() && IsOrder(order, source.entries.Keys)
    requires target != null ==> target.Valid()
    requires source != null && target != null ==> target !in source.Repr
    modifies if source != null && target != null then {target} else {}
    ensures result <==> source != null && target != null && Succeeds(source.Contents, old(target.Contents))
    ensures source != null && target != null ==> target.Valid()
    ensures source != null && target != null ==>
              forall d :: d in old(target.Repr) + old(source.Repr) && d != target ==> unchanged(d)
    ensures source != null && target != null ==>
              target.Contents == MergedInOrder(source.Contents, old(target.Contents), order)
    ensures result ==> target.Contents == DeepMerge(source.Contents, old(target.Contents))
    ensures source != null && target != null ==> fresh(target.Repr - old(target.Repr) - source.Repr)
  {
    if source == null || target == null {
      return false;
    }
    result := MergeEntries(source, target, order);
    if result { SuccessMergesAll(source.Contents, old(target.Contents), order); }
  }

  /** An I/O service; its properties live in one dictionary. */
  class Provider {
    const properties: Dictionary

    constructor (properties: Dictionary)
      ensures this.properties == properties
    {
      this.properties := properties;
    }
  }

  /** The same loop over a service's properties; each turn treats one property as MergeEntry does. */
  method MergeDictionaryIntoProvider(provider: Provider?, source: Dictionary?, order: seq<string>)
    returns (result: bool)
    requires source != null ==> source.Valid() && IsOrder(order, source.entries.Keys)
    requires provider != null ==> provider.properties.Valid()
    requires source != null && provider != null ==> provider.properties !in source.Repr
    modifies if source != null && provider != null then {provider.properties} else {}
    ensures result <==> source != null && provider != null &&
                        Succeeds(source.Contents, old(provider.properties.Contents))
    ensures source != null && provider != null ==> provider.properties.Valid()
    ensures source != null && provider != null ==>
              forall d :: d in old(provider.properties.Repr) + old(source.Repr) && d != provider.properties ==> unchanged(d)
    ensures source != null && provider != null ==>
              provider.properties.Contents == MergedInOrder(source.Contents, old(provider.properties.Contents), order)
    ensures result ==> provider.properties.Contents == DeepMerge(source.Contents, old(provider.properties.Contents))
  {
    result := false;
    if provider == null || source == null {
      return;
    }
    var properties := provider.properties;
    ghost var s, t := source.Contents, properties.Contents;
    MergedSoFarStart(s, t, order);
    for i := 0 to |order|
      invariant properties.Valid() && source.Valid() && source.Contents == s
      invariant result <==> i > 0
      invariant MergedSoFar(s, t, order, i, properties.Contents)
    {
      result := MergeTurn(source, properties, order, i, t);
      if !result {
        return;
      }
    }
    MergedSoFarEnd(s, t, order, properties.Contents);
    if result { SuccessMergesAll(s, t, order); }
  }

  /**
   Merging a source without empty dictionaries twice: both merges succeed, although after the first
   one the target shares nested dictionaries with the source, and the second changes no contents.
   */
  method MergeTwice(source: Dictionary, target: Dictionary) returns (first: bool, second: bool)
    requires source.Valid() && target.Valid() && target !in source.Repr
    requires NoEmptyDictionary(source.Contents)
    modifies target
    ensures first && second
    ensures target.Valid()
    ensures forall d :: d in old(target.Repr) + old(source.Repr) && d != target ==> unchanged(d)
    ensures target.Contents == DeepMerge(source.Contents, old(target.Contents))
  {
    NoEmptySucceeds(source.Contents, target.Contents);
    first := MergeWhole(source, target);
    DeepMergeIdempotent(source.Contents, old(target.Contents));
    NoEmptySucceeds(source.Contents, target.Contents);
    second := MergeWhole(source, target);
  }
}
