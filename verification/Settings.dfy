/** `set_nested_value`: storing a setting with a dotted key. */
module Settings {
  // Settings go into nested JSON objects, to a limited depth.
  //
  // The keys of a path are nested objects down to the limit, and what is left of the path
  // beyond it is one literal key with dots in it. `Stored` names these keys, and `Put` stores
  // a value under a list of keys without any limit; the recursion of the source is the second
  // after the first. The laws of reading and writing are proved for `Put` and then stated for
  // dotted keys: what was set is read back, nothing else changes, and different keys never
  // meet at one place.

  import opened Options
  import opened Strings

  datatype Json =
    | Null
    | Bool(b: bool)
    | Number(n: real)
    | Text(s: string)
    | Array(items: seq<Json>)
    | Object(members: map<string, Json>)

  const MAX_SETTINGS_KEY_DEPTH := 64

  type Keys = seq<string>

  // ----- Dotted keys -----

  /** `split('.')` */
  function Split(key: string): (path: Keys)
    ensures path != [] && forall i :: 0 <= i < |path| ==> '.' !in path[i]
    decreases |key|
  {
    var i := Find(key, '.');
    if i == |key| then
      assert key[..i] == key;
      [key]
    else [key[..i]] + Split(key[i + 1..])
  }

  /** `join(".")` */
  function Join(path: Keys): string {
    if path == [] then "" else if |path| == 1 then path[0] else path[0] + "." + Join(path[1..])
  }

  lemma {:induction false} SplitAtDot(key: string)
    ensures var i := Find(key, '.');
            Split(key) == if i == |key| then [key] else [key[..i]] + Split(key[i + 1..])
  {
    hide Find;
  }

  lemma {:induction false} JoinSplit(key: string)
    ensures Join(Split(key)) == key
    decreases |key|
  {
    hide Find, Split;
    var i := Find(key, '.');
    SplitAtDot(key);
    if i < |key| {
      var rest := key[i + 1..];
      JoinSplit(rest);
      assert Split(key)[1..] == Split(rest);
      assert key == key[..i] + "." + rest;
    }
  }

  // ----- Setting and reading -----

  function MembersOf(target: Json): map<string, Json> {
    if target.Object? then target.members else map[]
  }

  /** `set_nested_value_inner` */
  function SetFrom(target: Json, path: Keys, value: Json, depth: nat): Json
    decreases |path|
  {
    if path == [] then target else
    var members := MembersOf(target);
    if |path| == 1 || depth >= MAX_SETTINGS_KEY_DEPTH then
      Object(members[Join(path) := value])
    else
      Object(members[path[0] := SetFrom(Child(target, path[0]), path[1..], value, depth + 1)])
  }

  /** `set_nested_value` */
  function Set(target: Json, path: Keys, value: Json): Json {
    SetFrom(target, path, value, 0)
  }

  /** The keys under which a path is stored from a depth on: one by one, and the rest beyond the
      limit as one literal key. */
  function Stored(path: Keys, depth: nat): Keys
    decreases |path|
  {
    if path == [] then []
    else if |path| == 1 || depth >= MAX_SETTINGS_KEY_DEPTH then [Join(path)]
    else [path[0]] + Stored(path[1..], depth + 1)
  }

  function Get(target: Json, keys: Keys): Option<Json>
    decreases |keys|
  {
    if keys == [] then Some(target)
    else if keys[0] in MembersOf(target) then Get(MembersOf(target)[keys[0]], keys[1..])
    else None
  }

  /** What is under a key, or an empty object to be put there. */
  function Child(target: Json, key: string): Json {
    if key in MembersOf(target) then MembersOf(target)[key] else Object(map[])
  }

  /** Storing under keys, without a limit. */
  function Put(target: Json, keys: Keys, value: Json): Json
    decreases |keys|
  {
    if keys == [] then value
    else Object(MembersOf(target)[keys[0] := Put(Child(target, keys[0]), keys[1..], value)])
  }

  /** The limited recursion stores exactly under the stored keys. */
  lemma {:induction false} SetIsPut(target: Json, path: Keys, value: Json, depth: nat)
    requires path != []
    ensures SetFrom(target, path, value, depth) == Put(target, Stored(path, depth), value)
    ensures Stored(path, depth) != []
    decreases |path|
  {
    if |path| == 1 || depth >= MAX_SETTINGS_KEY_DEPTH {
      assert [Join(path)][1..] == [];
    } else {
      SetIsPut(Child(target, path[0]), path[1..], value, depth + 1);
      assert Stored(path, depth)[1..] == Stored(path[1..], depth + 1);
    }
  }

  /** At most 64 nested keys and one literal key, so the recursion is never deeper. */
  lemma {:induction false} StoredDepth(path: Keys, depth: nat)
    requires depth <= MAX_SETTINGS_KEY_DEPTH
    ensures |Stored(path, depth)| + depth <= MAX_SETTINGS_KEY_DEPTH + 1
    ensures |path| + depth <= MAX_SETTINGS_KEY_DEPTH + 1 ==> Stored(path, depth) == path
    decreases |path|
  {
    if |path| > 1 && depth < MAX_SETTINGS_KEY_DEPTH {
      StoredDepth(path[1..], depth + 1);
      assert path == [path[0]] + path[1..];
    }
  }

  lemma {:induction false} JoinStored(path: Keys, depth: nat)
    requires path != []
    ensures Stored(path, depth) != [] && Join(Stored(path, depth)) == Join(path)
    decreases |path|
  {
    if |path| > 1 && depth < MAX_SETTINGS_KEY_DEPTH {
      JoinStored(path[1..], depth + 1);
      assert Stored(path, depth)[1..] == Stored(path[1..], depth + 1);
    }
  }

  /** Where a dotted key is stored. */
  function Place(key: string): Keys {
    Stored(Split(key), 0)
  }

  /** Different keys are stored at different places. */
  lemma {:induction false} PlacesDiffer(key: string, other: string)
    ensures Join(Place(key)) == key && 1 <= |Place(key)| <= MAX_SETTINGS_KEY_DEPTH + 1
    ensures Place(key) == Place(other) <==> key == other
  {
    JoinStored(Split(key), 0);
    JoinStored(Split(other), 0);
    JoinSplit(key);
    JoinSplit(other);
    StoredDepth(Split(key), 0);
  }

  // ----- The laws -----

  /** What was put is read back, and nothing of an earlier value stays. */
  lemma {:induction false} PutGet(target: Json, keys: Keys, value: Json, more: Keys)
    ensures Get(Put(target, keys, value), keys + more) == Get(value, more)
    decreases |keys|
  {
    if keys == [] {
      assert keys + more == more;
    } else {
      PutGet(Child(target, keys[0]), keys[1..], value, more);
      assert (keys + more)[1..] == keys[1..] + more;
    }
  }

  lemma {:induction false} PutPut(target: Json, keys: Keys, value: Json, other: Json)
    ensures Put(Put(target, keys, other), keys, value) == Put(target, keys, value)
    decreases |keys|
  {
    if keys != [] {
      var members, child := MembersOf(target), Child(target, keys[0]);
      PutPut(child, keys[1..], value, other);
      var inner := Put(child, keys[1..], other);
      assert members[keys[0] := inner][keys[0] := Put(child, keys[1..], value)]
          == members[keys[0] := Put(child, keys[1..], value)];
    }
  }

  /** Neither leads to the other. */
  predicate Unrelated(p: Keys, q: Keys) {
    !(p <= q) && !(q <= p)
  }

  lemma {:induction false} UnrelatedRests(p: Keys, q: Keys)
    requires Unrelated(p, q) && p[0] == q[0]
    ensures Unrelated(p[1..], q[1..])
  {
    assert p == [p[0]] + p[1..] && q == [q[0]] + q[1..];
  }

  /** Everything elsewhere reads as before. */
  lemma {:induction false} PutKeeps(target: Json, keys: Keys, value: Json, other: Keys)
    requires Unrelated(keys, other)
    ensures Get(Put(target, keys, value), other) == Get(target, other)
    decreases |keys|
  {
    assert keys != [] && other != [];
    if keys[0] == other[0] {
      UnrelatedRests(keys, other);
      var members, child := MembersOf(target), Child(target, keys[0]);
      PutKeeps(child, keys[1..], value, other[1..]);
      assert keys[0] !in members ==> Get(child, other[1..]) == None by {
        EmptyHasNothing(other[1..]);
        assert other[1..] != [];
      }
    }
  }

  lemma {:induction false} EmptyHasNothing(keys: Keys)
    requires keys != []
    ensures Get(Object(map[]), keys) == None
  {
  }

  lemma {:induction false} PutUnder(target: Json, keys: Keys, value: Json)
    requires keys != []
    ensures Put(target, keys, value) ==
            Object(MembersOf(target)[keys[0] := Put(Child(target, keys[0]), keys[1..], value)])
  {
  }

  /** Two values put under one key, and under different keys. */
  lemma {:induction false} PutSameHead(target: Json, p: Keys, v: Json, q: Keys, w: Json)
    requires p != [] && q != [] && p[0] == q[0]
    ensures Put(Put(target, p, v), q, w) ==
            Object(MembersOf(target)[p[0] := Put(Put(Child(target, p[0]), p[1..], v), q[1..], w)])
  {
    hide Put;
    PutUnder(target, p, v);
    PutUnder(Put(target, p, v), q, w);
    var m, a := MembersOf(target), Put(Child(target, p[0]), p[1..], v);
    assert m[p[0] := a][p[0] := Put(a, q[1..], w)] == m[p[0] := Put(a, q[1..], w)];
  }

  lemma {:induction false} PutOtherHead(target: Json, p: Keys, v: Json, q: Keys, w: Json)
    requires p != [] && q != [] && p[0] != q[0]
    ensures Put(Put(target, p, v), q, w) ==
            Object(MembersOf(target)[p[0] := Put(Child(target, p[0]), p[1..], v)]
                                    [q[0] := Put(Child(target, q[0]), q[1..], w)])
  {
    hide Put;
    PutUnder(target, p, v);
    PutUnder(Put(target, p, v), q, w);
  }

  /** Settings at unrelated places do not depend on their order. */
  lemma {:induction false} PutCommutes(target: Json, p: Keys, v: Json, q: Keys, w: Json)
    requires Unrelated(p, q)
    ensures Put(Put(target, p, v), q, w) == Put(Put(target, q, w), p, v)
    decreases |p|
  {
    hide Put;
    if p[0] == q[0] {
      UnrelatedRests(p, q);
      PutCommutes(Child(target, p[0]), p[1..], v, q[1..], w);
      PutSameHead(target, p, v, q, w);
      PutSameHead(target, q, w, p, v);
    } else {
      PutOtherHead(target, p, v, q, w);
      PutOtherHead(target, q, w, p, v);
      var a, b := Put(Child(target, p[0]), p[1..], v), Put(Child(target, q[0]), q[1..], w);
      assert MembersOf(target)[p[0] := a][q[0] := b] == MembersOf(target)[q[0] := b][p[0] := a];
    }
  }

  // ----- Settings by key -----

  function SetKey(target: Json, key: string, value: Json): Json {
    Set(target, Split(key), value)
  }

  lemma {:induction false} SetKeyIsPut(target: Json, key: string, value: Json)
    ensures SetKey(target, key, value) == Put(target, Place(key), value)
  {
    SetIsPut(target, Split(key), value, 0);
  }

  /** The value just set is read back, whatever was there before, and setting again replaces it. */
  lemma {:induction false} SetKeyReadsBack(target: Json, key: string, value: Json, other: Json)
    ensures Get(SetKey(target, key, value), Place(key)) == Some(value)
    ensures SetKey(SetKey(target, key, other), key, value) == SetKey(target, key, value)
  {
    hide SetKey, Place, Put, Get;
    SetKeyIsPut(target, key, value);
    SetKeyIsPut(target, key, other);
    SetKeyIsPut(SetKey(target, key, other), key, value);
    PutGet(target, Place(key), value, []);
    PutPut(target, Place(key), value, other);
    assert Place(key) + [] == Place(key);
    assert Get(value, []) == Some(value) by {
      GetNothing(value);
    }
  }

  lemma {:induction false} GetNothing(value: Json)
    ensures Get(value, []) == Some(value)
  {
  }

  lemma {:induction false} SetKeyKeeps(target: Json, key: string, value: Json, other: Keys)
    requires Unrelated(Place(key), other)
    ensures Get(SetKey(target, key, value), other) == Get(target, other)
  {
    SetKeyIsPut(target, key, value);
    PutKeeps(target, Place(key), value, other);
  }

  /** Of two settings, one at a place above the other, the deeper one survives exactly if it is
      set last, unless the upper value has that value itself. */
  lemma {:induction false} UpperAndDeeper(target: Json, upper: string, w: Json, deeper: string, v: Json)
    requires Place(upper) < Place(deeper)
    ensures Get(SetKey(SetKey(target, upper, w), deeper, v), Place(deeper)) == Some(v)
    ensures Get(SetKey(SetKey(target, deeper, v), upper, w), Place(deeper)) == Get(w, Place(deeper)[|Place(upper)|..])
    ensures !w.Object? ==> Get(SetKey(SetKey(target, deeper, v), upper, w), Place(deeper)) == None
  {
    hide SetKey, Place, Put;
    SetKeyReadsBack(SetKey(target, upper, w), deeper, v, v);
    SetKeyIsPut(SetKey(target, deeper, v), upper, w);
    var more := Place(deeper)[|Place(upper)|..];
    assert Place(deeper) == Place(upper) + more;
    PutGet(SetKey(target, deeper, v), Place(upper), w, more);
  }

  /** Settings one after the other. */
  function SetAll(target: Json, settings: seq<(string, Json)>): Json {
    if settings == [] then target else
    var n := |settings| - 1;
    SetKey(SetAll(target, settings[..n]), settings[n].0, settings[n].1)
  }

  predicate Independent(settings: seq<(string, Json)>) {
    forall i, j :: 0 <= i < j < |settings| ==> Unrelated(Place(settings[i].0), Place(settings[j].0))
  }

  /** After settings at unrelated places all of them are read back, and what is unrelated to
      every one of them is as before. */
  lemma {:induction false} SetAllReadsBack(target: Json, settings: seq<(string, Json)>, other: Keys)
    requires Independent(settings)
    ensures forall i :: 0 <= i < |settings| ==>
              Get(SetAll(target, settings), Place(settings[i].0)) == Some(settings[i].1)
    ensures (forall i :: 0 <= i < |settings| ==> Unrelated(Place(settings[i].0), other)) ==>
              Get(SetAll(target, settings), other) == Get(target, other)
  {
    hide SetKey, Place, Get;
    if settings != [] {
      var n := |settings| - 1;
      var before := SetAll(target, settings[..n]);
      SetAllReadsBack(target, settings[..n], other);
      SetKeyReadsBack(before, settings[n].0, settings[n].1, Null);
      forall i | 0 <= i < n
        ensures Get(SetAll(target, settings), Place(settings[i].0)) == Some(settings[i].1)
      {
        assert settings[..n][i] == settings[i];
        SetKeyKeeps(before, settings[n].0, settings[n].1, Place(settings[i].0));
      }
      if Unrelated(Place(settings[n].0), other) {
        SetKeyKeeps(before, settings[n].0, settings[n].1, other);
      }
    }
  }
}
