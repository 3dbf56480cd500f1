/** Where dotted keys are stored, with the limit written out. */
module SettingsCases {
  import opened Options
  import opened Strings
  import opened Settings

  /** A key is cut at its dots. */
  lemma {:induction false} SplitsAtDots(first: string, rest: string)
    requires '.' !in first
    ensures Split(first) == [first] && Split(first + "." + rest) == [first] + Split(rest)
  {
    hide Find;
    var key := first + "." + rest;
    FindFirst(first, '.', rest);
    SplitAtDot(key);
    assert key[..|first|] == first && key[|first| + 1..] == rest;
    NoDot(first);
    SplitAtDot(first);
  }

  lemma {:induction false} NoDot(s: string)
    requires '.' !in s
    ensures Find(s, '.') == |s|
  {
  }

  lemma {:induction false} StoredFrom(path: Keys, depth: nat)
    requires path != [] && depth <= 64
    ensures Stored(path, depth) == if |path| + depth <= 65 then path
                                   else path[..64 - depth] + [Join(path[64 - depth..])]
    decreases |path|
  {
    hide Join;
    if |path| > 1 && depth < 64 {
      StoredFrom(path[1..], depth + 1);
      assert path == [path[0]] + path[1..];
      if |path| + depth > 65 {
        assert path[1..][..63 - depth] == path[1..64 - depth] && path[1..][63 - depth..] == path[64 - depth..];
        assert path[..64 - depth] == [path[0]] + path[1..64 - depth];
      }
    } else if |path| == 1 {
      JoinOne(path);
    } else {
      assert path[..0] == [] && path[0..] == path;
    }
  }

  lemma {:induction false} JoinOne(path: Keys)
    requires |path| == 1
    ensures [Join(path)] == path
  {
  }

  /** A key of up to 65 parts is stored under its parts, and a longer one under its first 64 and
      all others joined by dots. */
  lemma {:induction false} PlaceIs(key: string)
    ensures var path := Split(key);
            Place(key) == if |path| <= 65 then path else path[..64] + [Join(path[64..])]
  {
    hide Split, Stored, Join;
    StoredFrom(Split(key), 0);
  }

  /** Joining puts a dot between. */
  lemma {:induction false} JoinIs(first: string, rest: Keys)
    ensures Join([first]) == first
    ensures rest != [] ==> Join([first] + rest) == first + "." + Join(rest)
  {
    assert ([first] + rest)[1..] == rest;
  }
}
