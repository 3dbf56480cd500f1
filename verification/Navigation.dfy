/** `normalize_navigation`. */
module Navigation {
  // The canonical form under which two navigation documents are compared. Only sibling action
  // definitions may be reordered, and each sorts within the places that actions hold among
  // their siblings.

  import opened Options
  import opened Sorting
  import opened Strings

  type Attribute = (string, string)

  /** An element as the XML parser gives it: `attrib` in document order, `text` before the
      first child, `tail` behind the element's end. */
  datatype Element = Element(tag: string, attrib: seq<Attribute>, text: Option<string>,
                             children: seq<Element>, tail: Option<string>)

  /** The nested tuple that stands for an element. */
  datatype Canon = Canon(tag: string, attributes: seq<Attribute>, text: string, children: seq<Canon>)

  // ----- The order of tuples -----

  predicate AttributeLess(a: Attribute, b: Attribute) {
    if a.0 == b.0 then StringLess(a.1, b.1) else StringLess(a.0, b.0)
  }

  predicate AttributesLess(a: seq<Attribute>, b: seq<Attribute>) { SeqLess(AttributeLess, a, b) }

  predicate CanonLess(a: Canon, b: Canon)
    decreases a, 1
  {
    if a.tag != b.tag then StringLess(a.tag, b.tag)
    else if a.attributes != b.attributes then AttributesLess(a.attributes, b.attributes)
    else if a.text != b.text then StringLess(a.text, b.text)
    else CanonsLess(a.children, b.children)
  }

  predicate CanonsLess(xs: seq<Canon>, ys: seq<Canon>)
    decreases xs, 0
  {
    ys != [] && (xs == [] || (if xs[0] == ys[0] then CanonsLess(xs[1..], ys[1..]) else CanonLess(xs[0], ys[0])))
  }

  lemma {:induction false} AttributeOrder()
    ensures StrictOrder(AttributeLess)
  {
    StringOrder();
    assert forall x: string, y: string :: StringLess(x, y) || StringLess(y, x) || x == y;
  }

  lemma {:induction false} AttributesOrder()
    ensures StrictOrder(AttributesLess)
  {
    AttributeOrder();
    forall x: seq<Attribute>, y: seq<Attribute>
      ensures !AttributesLess(x, x) && (AttributesLess(x, y) || AttributesLess(y, x) || x == y)
    {
      SeqTrichotomy(AttributeLess, x, y);
    }
    forall x: seq<Attribute>, y: seq<Attribute>, z: seq<Attribute> | AttributesLess(x, y) && AttributesLess(y, z)
      ensures AttributesLess(x, z)
    {
      SeqTransitive(AttributeLess, x, y, z);
    }
  }

  lemma {:induction false} CanonTrichotomy(a: Canon, b: Canon)
    ensures !CanonLess(a, a)
    ensures CanonLess(a, b) || CanonLess(b, a) || a == b
    decreases a, 1
  {
    StringOrder();
    AttributesOrder();
    CanonsTrichotomy(a.children, b.children);
  }

  lemma {:induction false} CanonsTrichotomy(xs: seq<Canon>, ys: seq<Canon>)
    ensures !CanonsLess(xs, xs)
    ensures CanonsLess(xs, ys) || CanonsLess(ys, xs) || xs == ys
    decreases xs, 0
  {
    if xs != [] {
      CanonsTrichotomy(xs[1..], if ys == [] then [] else ys[1..]);
      if ys != [] {
        CanonTrichotomy(xs[0], ys[0]);
        assert xs == [xs[0]] + xs[1..] && ys == [ys[0]] + ys[1..];
      }
    }
  }

  lemma {:induction false} CanonTransitive(a: Canon, b: Canon, c: Canon)
    requires CanonLess(a, b) && CanonLess(b, c)
    ensures CanonLess(a, c)
    decreases a, 1
  {
    StringOrder();
    AttributesOrder();
    if CanonsLess(a.children, b.children) && CanonsLess(b.children, c.children) {
      CanonsTransitive(a.children, b.children, c.children);
    }
  }

  lemma {:induction false} CanonsTransitive(xs: seq<Canon>, ys: seq<Canon>, zs: seq<Canon>)
    requires CanonsLess(xs, ys) && CanonsLess(ys, zs)
    ensures CanonsLess(xs, zs)
    decreases xs, 0
  {
    if xs != [] {
      CanonTrichotomy(xs[0], ys[0]);
      if xs[0] == ys[0] && ys[0] == zs[0] {
        CanonsTransitive(xs[1..], ys[1..], zs[1..]);
      } else if xs[0] != ys[0] && ys[0] != zs[0] {
        CanonTransitive(xs[0], ys[0], zs[0]);
      }
    }
  }

  /** Nested tuples are totally ordered, so sorting them has one result. */
  lemma {:induction false} CanonOrder()
    ensures StrictOrder(CanonLess)
  {
    forall a: Canon, b: Canon
      ensures !CanonLess(a, a) && (CanonLess(a, b) || CanonLess(b, a) || a == b)
    {
      CanonTrichotomy(a, b);
    }
    forall a: Canon, b: Canon, c: Canon | CanonLess(a, b) && CanonLess(b, c)
      ensures CanonLess(a, c)
    {
      CanonTransitive(a, b, c);
    }
  }

  // ----- The canonical form -----

  /** The part of a qualified name behind its last `}`. */
  function LocalName(name: string): string {
    if name == [] || name[|name| - 1] == '}' then []
    else LocalName(name[..|name| - 1]) + [name[|name| - 1]]
  }

  predicate IsActionAttribute(a: Attribute) {
    LocalName(a.0) == "type" && a.1 == "ActionDefinition"
  }

  predicate IsAction(e: Element) {
    exists a :: a in e.attrib && IsActionAttribute(a)
  }

  function Flags(children: seq<Element>): (flags: seq<bool>)
    ensures |flags| == |children|
    ensures forall i :: 0 <= i < |children| ==> flags[i] == IsAction(children[i])
  {
    seq(|children|, i requires 0 <= i < |children| => IsAction(children[i]))
  }

  function Kept(attrib: seq<Attribute>): seq<Attribute> {
    if attrib == [] then []
    else (if LocalName(attrib[0].0) != "ControlGUID" then [attrib[0]] else []) + Kept(attrib[1..])
  }

  function TextOf(text: Option<string>): string {
    if text.None? then "" else Strip(text.value)
  }

  /** The elements of `xs` at the flagged places. */
  function Pick<T>(xs: seq<T>, flags: seq<bool>): seq<T>
    requires |xs| == |flags|
  {
    if xs == [] then [] else
    var n := |xs| - 1;
    Pick(xs[..n], flags[..n]) + if flags[n] then [xs[n]] else []
  }

  function Count(flags: seq<bool>): nat {
    if flags == [] then 0 else Count(flags[..|flags| - 1]) + if flags[|flags| - 1] then 1 else 0
  }

  lemma {:induction false} PickLength<T>(xs: seq<T>, flags: seq<bool>)
    requires |xs| == |flags|
    ensures |Pick(xs, flags)| == Count(flags)
  {
    if xs != [] {
      PickLength(xs[..|xs| - 1], flags[..|xs| - 1]);
    }
  }

  /** `xs` with the elements at the flagged places replaced, in order, by `ys`. */
  function Put<T>(xs: seq<T>, flags: seq<bool>, ys: seq<T>): (r: seq<T>)
    requires |xs| == |flags| && |ys| == Count(flags)
    ensures |r| == |xs|
  {
    if xs == [] then [] else
    var n := |xs| - 1;
    if flags[n] then Put(xs[..n], flags[..n], ys[..|ys| - 1]) + [ys[|ys| - 1]]
    else Put(xs[..n], flags[..n], ys) + [xs[n]]
  }

  function CanonicalAll(children: seq<Element>): (kids: seq<Canon>)
    ensures |kids| == |children|
    ensures forall i :: 0 <= i < |children| ==> kids[i] == Canonical(children[i])
    decreases children, 1
  {
    seq(|children|, i requires 0 <= i < |children| => Canonical(children[i]))
  }

  function SortedActions(kids: seq<Canon>, flags: seq<bool>): (actions: seq<Canon>)
    requires |kids| == |flags|
    ensures |actions| == Count(flags)
  {
    CanonOrder();
    SortSorts(CanonLess, Pick(kids, flags));
    PickLength(kids, flags);
    Sort(CanonLess, Pick(kids, flags))
  }

  function Canonical(e: Element): Canon
    decreases e, 0
  {
    var kids, flags := CanonicalAll(e.children), Flags(e.children);
    Canon(e.tag, Sort(AttributeLess, Kept(e.attrib)), TextOf(e.text), Put(kids, flags, SortedActions(kids, flags)))
  }

  /** The document without any text behind the end of an element. */
  function WithoutTails(e: Element): Element
    decreases e, 0
  {
    e.(tail := None, children := AllWithoutTails(e.children))
  }

  function AllWithoutTails(children: seq<Element>): (bare: seq<Element>)
    ensures |bare| == |children|
    ensures forall i :: 0 <= i < |children| ==> bare[i] == WithoutTails(children[i])
    decreases children, 1
  {
    seq(|children|, i requires 0 <= i < |children| => WithoutTails(children[i]))
  }

  /** Text behind the end of an element makes no difference, anywhere in the document. */
  lemma {:induction false} TailsAreDropped(e: Element)
    ensures Canonical(WithoutTails(e)) == Canonical(e)
  {
    var bare := WithoutTails(e);
    forall i | 0 <= i < |e.children| ensures Canonical(bare.children[i]) == Canonical(e.children[i]) {
      TailsAreDropped(e.children[i]);
    }
    assert CanonicalAll(bare.children) == CanonicalAll(e.children);
    assert Flags(bare.children) == Flags(e.children);
  }

  // ----- The intended equivalence -----

  /** A rearrangement that moves flagged places among themselves only. */
  ghost predicate Rearranges(p: seq<nat>, flags: seq<bool>) {
    && |p| == |flags|
    && (forall i :: 0 <= i < |p| ==> p[i] < |p|)
    && (forall i, j :: 0 <= i < j < |p| ==> p[i] != p[j])
    && (forall i :: 0 <= i < |p| && !flags[i] ==> p[i] == i)
  }

  /** Two elements mean the same: tag, text and attributes agree up to the random control ids
      and the order of attributes, `tail` is free, the same children are actions, and the children are
      equivalent one by one after sibling actions have been moved among their places. */
  ghost predicate Equivalent(a: Element, b: Element)
    decreases a
  {
    && a.tag == b.tag
    && multiset(Kept(a.attrib)) == multiset(Kept(b.attrib))
    && TextOf(a.text) == TextOf(b.text)
    && |a.children| == |b.children|
    && Flags(a.children) == Flags(b.children)
    && exists p: seq<nat> ::
         && Rearranges(p, Flags(a.children))
         && forall i :: 0 <= i < |a.children| ==> Equivalent(a.children[i], b.children[p[i]])
  }

  // ----- Rearranging -----

  /** Elements of `xs` are those of `ys` moved by `p`. */
  ghost predicate Moves<T(!new)>(p: seq<nat>, xs: seq<T>, ys: seq<T>) {
    && |p| == |xs| == |ys|
    && (forall i :: 0 <= i < |p| ==> p[i] < |p|)
    && (forall i :: 0 <= i < |p| ==> xs[i] == ys[p[i]])
  }

  /** The picked elements without and with the last place. */
  lemma {:induction false} PickLast<T>(xs: seq<T>, flags: seq<bool>)
    requires |xs| == |flags| > 0
    ensures var n := |xs| - 1;
            if flags[n] then multiset(Pick(xs, flags)) == multiset(Pick(xs[..n], flags[..n])) + multiset{xs[n]}
            else Pick(xs, flags) == Pick(xs[..n], flags[..n])
  {
  }

  lemma {:induction false} PickUpdate<T>(xs: seq<T>, flags: seq<bool>, j: nat, v: T)
    requires |xs| == |flags| && j < |xs| && flags[j]
    ensures xs[j] in multiset(Pick(xs, flags))
    ensures multiset(Pick(xs[j := v], flags)) == multiset(Pick(xs, flags)) - multiset{xs[j]} + multiset{v}
  {
    hide Pick;
    var n := |xs| - 1;
    PickLast(xs, flags);
    if j == n {
      PickLast(xs[j := v], flags);
      assert xs[j := v][..n] == xs[..n];
    } else {
      PickUpdate(xs[..n], flags[..n], j, v);
      PickEarlier(xs, flags, j, v);
    }
  }

  lemma {:induction false} PickEarlier<T>(xs: seq<T>, flags: seq<bool>, j: nat, v: T)
    requires |xs| == |flags| && j < |xs| - 1
    ensures var n := |xs| - 1;
            multiset(Pick(xs[j := v], flags)) ==
            multiset(Pick(xs[..n][j := v], flags[..n])) + if flags[n] then multiset{xs[n]} else multiset{}
  {
    hide Pick;
    var n := |xs| - 1;
    PickLast(xs[j := v], flags);
    assert xs[j := v][..n] == xs[..n][j := v] && xs[j := v][n] == xs[n];
  }

  lemma {:induction false} PickFinds<T>(xs: seq<T>, flags: seq<bool>, v: T) returns (j: nat)
    requires |xs| == |flags| && v in multiset(Pick(xs, flags))
    ensures j < |xs| && flags[j] && xs[j] == v
  {
    var n := |xs| - 1;
    if flags[n] && xs[n] == v {
      j := n;
    } else {
      j := PickFinds(xs[..n], flags[..n], v);
    }
  }

  /** `ys` with its last element moved to place `j`, and the last place dropped. */
  function Unhook<T>(ys: seq<T>, j: nat): seq<T>
    requires j < |ys|
  {
    var n := |ys| - 1;
    if j == n then ys[..n] else ys[..n][j := ys[n]]
  }

  lemma {:induction false} PickUnhook<T>(ys: seq<T>, flags: seq<bool>, j: nat)
    requires |ys| == |flags| && j < |ys| && flags[j] && flags[|ys| - 1]
    ensures multiset(Pick(ys, flags)) ==
            multiset(Pick(Unhook(ys, j), flags[..|ys| - 1])) + multiset{ys[j]}
  {
    hide Pick;
    var n := |ys| - 1;
    PickLast(ys, flags);
    if j < n {
      PickUpdate(ys[..n], flags[..n], j, ys[n]);
    }
  }

  /** Sequences that agree outside the flagged places and hold the same elements at them can
      be moved onto each other. */
  lemma {:induction false} FindMove<T(!new)>(xs: seq<T>, ys: seq<T>, flags: seq<bool>) returns (p: seq<nat>)
    requires |xs| == |ys| == |flags|
    requires forall i :: 0 <= i < |xs| && !flags[i] ==> xs[i] == ys[i]
    requires multiset(Pick(xs, flags)) == multiset(Pick(ys, flags))
    ensures Rearranges(p, flags) && Moves(p, xs, ys)
    decreases |xs|
  {
    hide Pick, Rearranges;
    if xs == [] {
      p := [];
      NothingMoves(p, flags);
    } else {
      var n := |xs| - 1;
      PickLast(xs, flags);
      PickLast(ys, flags);
      if flags[n] {
        assert xs[n] in multiset(Pick(xs, flags));
        var j := PickFinds(ys, flags, xs[n]);
        UnhookAgrees(xs, ys, flags, j);
        var q := FindMove(xs[..n], Unhook(ys, j), flags[..n]);
        p := Rehook(q, xs, ys, flags, j);
      } else {
        var q := FindMove(xs[..n], ys[..n], flags[..n]);
        p := KeepLast(q, xs, ys, flags);
      }
    }
  }

  lemma {:induction false} UnhookAgrees<T>(xs: seq<T>, ys: seq<T>, flags: seq<bool>, j: nat)
    requires |xs| == |ys| == |flags| > 0 && flags[|xs| - 1]
    requires j < |ys| && flags[j] && ys[j] == xs[|xs| - 1]
    requires forall i :: 0 <= i < |xs| && !flags[i] ==> xs[i] == ys[i]
    requires multiset(Pick(xs, flags)) == multiset(Pick(ys, flags))
    ensures var n := |xs| - 1;
            && (forall i :: 0 <= i < n && !flags[..n][i] ==> xs[..n][i] == Unhook(ys, j)[i])
            && multiset(Pick(xs[..n], flags[..n])) == multiset(Pick(Unhook(ys, j), flags[..n]))
  {
    hide Pick;
    var n := |xs| - 1;
    PickLast(xs, flags);
    PickUnhook(ys, flags, j);
    assert multiset(Pick(xs[..n], flags[..n])) == multiset(Pick(xs, flags)) - multiset{xs[n]};
    assert multiset(Pick(Unhook(ys, j), flags[..n])) == multiset(Pick(ys, flags)) - multiset{xs[n]};
  }

  lemma {:induction false} NothingMoves(p: seq<nat>, flags: seq<bool>)
    requires p == [] && flags == []
    ensures Rearranges(p, flags)
  {
  }

  lemma {:induction false} KeepLast<T(!new)>(q: seq<nat>, xs: seq<T>, ys: seq<T>, flags: seq<bool>)
    returns (p: seq<nat>)
    requires |xs| == |ys| == |flags| == |q| + 1 && xs[|q|] == ys[|q|]
    requires Rearranges(q, flags[..|q|]) && Moves(q, xs[..|q|], ys[..|q|])
    ensures Rearranges(p, flags) && Moves(p, xs, ys)
  {
    var n := |q|;
    p := q + [n];
    forall i | 0 <= i < n ensures xs[i] == ys[p[i]] {
      assert xs[..n][i] == ys[..n][q[i]];
    }
    forall i | 0 <= i < n && !flags[i] ensures p[i] == i {
      assert flags[..n][i] == flags[i];
    }
  }

  lemma {:induction false} Rehook<T(!new)>(q: seq<nat>, xs: seq<T>, ys: seq<T>, flags: seq<bool>, j: nat)
    returns (p: seq<nat>)
    requires |xs| == |ys| == |flags| == |q| + 1 && j < |ys| && flags[j] && flags[|q|] && ys[j] == xs[|q|]
    requires Rearranges(q, flags[..|q|]) && Moves(q, xs[..|q|], Unhook(ys, j))
    ensures Rearranges(p, flags) && Moves(p, xs, ys)
  {
    var n := |q|;
    p := seq(n, i requires 0 <= i < n => if q[i] == j then n else q[i]) + [j];
    forall i | 0 <= i < n ensures xs[i] == ys[p[i]] {
      assert xs[..n][i] == Unhook(ys, j)[q[i]];
    }
    forall i | 0 <= i < n && !flags[i] ensures p[i] == i {
      assert flags[..n][i] == flags[i];
    }
  }

  /** A move without its last place: whatever went there goes where the last element went. */
  lemma {:induction false} UnhookMove<T(!new)>(p: seq<nat>, xs: seq<T>, ys: seq<T>, flags: seq<bool>)
    returns (q: seq<nat>)
    requires Rearranges(p, flags) && Moves(p, xs, ys) && xs != []
    ensures var n := |xs| - 1;
            && flags[n] == flags[p[n]] && (!flags[n] ==> p[n] == n)
            && Rearranges(q, flags[..n]) && Moves(q, xs[..n], Unhook(ys, p[n]))
  {
    var n := |xs| - 1;
    var j := p[n];
    q := seq(n, i requires 0 <= i < n => if p[i] == n then j else p[i]);
    MoveStaysFlagged(p, flags, n);
    forall i | 0 <= i < n
      ensures q[i] < n && xs[..n][i] == Unhook(ys, j)[q[i]]
      ensures !flags[..n][i] ==> q[i] == i
    {
      assert xs[i] == ys[p[i]] && p[i] != j;
    }
  }

  /** Moving flagged places keeps the elements at them. */
  lemma {:induction false} MoveKeepsPick<T(!new)>(p: seq<nat>, xs: seq<T>, ys: seq<T>, flags: seq<bool>)
    requires Rearranges(p, flags) && Moves(p, xs, ys)
    ensures multiset(Pick(xs, flags)) == multiset(Pick(ys, flags))
    decreases |xs|
  {
    if xs != [] {
      hide Pick, Rearranges;
      var n := |xs| - 1;
      var q := UnhookMove(p, xs, ys, flags);
      MoveKeepsPick(q, xs[..n], Unhook(ys, p[n]), flags[..n]);
      PickLast(xs, flags);
      if flags[n] {
        PickUnhook(ys, flags, p[n]);
      } else {
        PickLast(ys, flags);
      }
    }
  }

  lemma {:induction false} MoveStaysFlagged(p: seq<nat>, flags: seq<bool>, i: nat)
    requires Rearranges(p, flags) && i < |p|
    ensures flags[i] == flags[p[i]]
  {
    assert !flags[p[i]] ==> p[p[i]] == p[i];
  }

  // ----- The canonical form decides the equivalence -----

  predicate IsActionCanon(c: Canon) {
    exists a :: a in c.attributes && IsActionAttribute(a)
  }

  lemma {:induction false} KeptIs(attrib: seq<Attribute>, a: Attribute)
    ensures a in Kept(attrib) <==> a in attrib && LocalName(a.0) != "ControlGUID"
  {
    if attrib != [] {
      KeptIs(attrib[1..], a);
      assert attrib == [attrib[0]] + attrib[1..];
    }
  }

  lemma {:induction false} ActionIsKept(a: Attribute)
    requires IsActionAttribute(a)
    ensures LocalName(a.0) != "ControlGUID"
  {
    assert LocalName(a.0)[0] == 't';
    assert "ControlGUID"[0] == 'C';
  }

  /** Whether an element is an action can be read off its canonical form. */
  lemma {:induction false} CanonicalShowsAction(e: Element)
    ensures IsActionCanon(Canonical(e)) <==> IsAction(e)
  {
    hide LocalName, Kept, Sort, Put;
    AttributeOrder();
    SortSorts(AttributeLess, Kept(e.attrib));
    var sorted := Sort(AttributeLess, Kept(e.attrib));
    assert Canonical(e).attributes == sorted;
    forall a | IsActionAttribute(a)
      ensures a in sorted <==> a in e.attrib
    {
      KeptIs(e.attrib, a);
      ActionIsKept(a);
      assert a in sorted <==> a in multiset(sorted);
      assert a in Kept(e.attrib) <==> a in multiset(Kept(e.attrib));
    }
  }

  /** The last step of `Put` and of `Pick`. */
  lemma {:induction false} PutLast<T>(xs: seq<T>, flags: seq<bool>, ys: seq<T>)
    requires |xs| == |flags| > 0 && |ys| == Count(flags)
    ensures var n := |xs| - 1;
            Put(xs, flags, ys) == if flags[n] then Put(xs[..n], flags[..n], ys[..|ys| - 1]) + [ys[|ys| - 1]]
                                  else Put(xs[..n], flags[..n], ys) + [xs[n]]
  {
  }

  lemma {:induction false} PickAppends<T>(xs: seq<T>, flags: seq<bool>)
    requires |xs| == |flags| > 0
    ensures var n := |xs| - 1;
            Pick(xs, flags) == if flags[n] then Pick(xs[..n], flags[..n]) + [xs[n]] else Pick(xs[..n], flags[..n])
  {
  }

  lemma {:induction false} PutAt<T>(xs: seq<T>, flags: seq<bool>, ys: seq<T>)
    requires |xs| == |flags| && |ys| == Count(flags)
    ensures Pick(Put(xs, flags, ys), flags) == ys
    ensures forall i :: 0 <= i < |xs| && !flags[i] ==> Put(xs, flags, ys)[i] == xs[i]
  {
    if xs != [] {
      PutAt(xs[..|xs| - 1], flags[..|xs| - 1], if flags[|xs| - 1] then ys[..|ys| - 1] else ys);
      PutAtLast(xs, flags, ys);
    }
  }

  lemma {:induction false} PutAtLast<T>(xs: seq<T>, flags: seq<bool>, ys: seq<T>)
    requires |xs| == |flags| > 0 && |ys| == Count(flags)
    requires var n := |xs| - 1;
             var init := if flags[n] then ys[..|ys| - 1] else ys;
             && Pick(Put(xs[..n], flags[..n], init), flags[..n]) == init
             && forall i :: 0 <= i < n && !flags[..n][i] ==> Put(xs[..n], flags[..n], init)[i] == xs[..n][i]
    ensures Pick(Put(xs, flags, ys), flags) == ys
    ensures forall i :: 0 <= i < |xs| && !flags[i] ==> Put(xs, flags, ys)[i] == xs[i]
  {
    hide Pick, Put;
    var n := |xs| - 1;
    var r := Put(xs, flags, ys);
    PutLast(xs, flags, ys);
    PickAppends(r, flags);
    assert r[..n] == Put(xs[..n], flags[..n], if flags[n] then ys[..|ys| - 1] else ys);
    if flags[n] {
      assert ys == ys[..|ys| - 1] + [ys[|ys| - 1]];
    }
    LastOfRest(xs, r, flags);
  }

  lemma {:induction false} LastOfRest<T>(xs: seq<T>, ys: seq<T>, flags: seq<bool>)
    requires |xs| == |ys| == |flags| > 0
    requires var n := |xs| - 1;
             && (forall i :: 0 <= i < n && !flags[..n][i] ==> ys[..n][i] == xs[..n][i])
             && (!flags[n] ==> ys[n] == xs[n])
    ensures forall i :: 0 <= i < |xs| && !flags[i] ==> ys[i] == xs[i]
  {
    var n := |xs| - 1;
    forall i | 0 <= i < n && !flags[i] ensures ys[i] == xs[i] {
      assert flags[..n][i] == flags[i] && ys[..n][i] == ys[i];
    }
  }

  lemma {:induction false} PickedAt<T>(xs: seq<T>, flags: seq<bool>, v: T)
    requires |xs| == |flags| && v in Pick(xs, flags)
    ensures exists j :: 0 <= j < |xs| && flags[j] && xs[j] == v
  {
    var j := PickFinds(xs, flags, v);
  }

  lemma {:induction false} PutInjective<T>(xs: seq<T>, ys: seq<T>, flags: seq<bool>, us: seq<T>, vs: seq<T>)
    requires |xs| == |ys| == |flags| && |us| == |vs| == Count(flags)
    ensures Put(xs, flags, us) == Put(ys, flags, vs) <==>
            us == vs && forall i :: 0 <= i < |xs| && !flags[i] ==> xs[i] == ys[i]
  {
    PutAt(xs, flags, us);
    PutAt(ys, flags, vs);
    if us == vs && forall i :: 0 <= i < |xs| && !flags[i] ==> xs[i] == ys[i] {
      PutSame(xs, ys, flags, us);
    }
  }

  lemma {:induction false} PutSame<T>(xs: seq<T>, ys: seq<T>, flags: seq<bool>, us: seq<T>)
    requires |xs| == |ys| == |flags| && |us| == Count(flags)
    requires forall i :: 0 <= i < |xs| && !flags[i] ==> xs[i] == ys[i]
    ensures Put(xs, flags, us) == Put(ys, flags, us)
  {
    if xs != [] {
      var n := |xs| - 1;
      PutSame(xs[..n], ys[..n], flags[..n], if flags[n] then us[..|us| - 1] else us);
    }
  }

  /** The children of a canonical form show which of them are actions. */
  lemma {:induction false} PutShowsActions(e: Element, i: nat)
    requires i < |e.children|
    ensures IsActionCanon(Canonical(e).children[i]) <==> Flags(e.children)[i]
  {
    var kids, flags := CanonicalAll(e.children), Flags(e.children);
    var actions := SortedActions(kids, flags);
    var placed := Put(kids, flags, actions);
    hide Put, Sort, IsActionCanon, IsAction, Pick;
    assert Canonical(e).children == placed;
    PutAt(kids, flags, actions);
    if flags[i] {
      CanonOrder();
      SortSorts(CanonLess, Pick(kids, flags));
      PickedFrom(placed, flags, i);
      assert placed[i] in multiset(actions);
      assert placed[i] in Pick(kids, flags);
      PickedAt(kids, flags, placed[i]);
      var j :| 0 <= j < |kids| && flags[j] && kids[j] == placed[i];
      CanonicalShowsAction(e.children[j]);
    } else {
      CanonicalShowsAction(e.children[i]);
    }
  }

  lemma {:induction false} PickedFrom<T>(xs: seq<T>, flags: seq<bool>, i: nat)
    requires |xs| == |flags| && i < |xs| && flags[i]
    ensures xs[i] in Pick(xs, flags)
  {
    PickUpdate(xs, flags, i, xs[i]);
  }

  lemma {:induction false} EqualFormsEqualFlags(a: Element, b: Element)
    requires Canonical(a).children == Canonical(b).children
    ensures |a.children| == |b.children| && Flags(a.children) == Flags(b.children)
  {
    assert |Canonical(a).children| == |a.children| && |Canonical(b).children| == |b.children|;
    forall i | 0 <= i < |a.children|
      ensures Flags(a.children)[i] == Flags(b.children)[i]
    {
      PutShowsActions(a, i);
      PutShowsActions(b, i);
    }
  }

  /** Canonical children agree exactly when the same children are actions and some
      rearrangement of the actions matches the canonical forms one by one. */
  lemma {:induction false} ChildrenAgree(a: Element, b: Element)
    requires |a.children| == |b.children| && Flags(a.children) == Flags(b.children)
    ensures Canonical(a).children == Canonical(b).children <==>
            exists p: seq<nat> :: Rearranges(p, Flags(a.children))
                                  && Moves(p, CanonicalAll(a.children), CanonicalAll(b.children))
  {
    var xs, ys, flags := CanonicalAll(a.children), CanonicalAll(b.children), Flags(a.children);
    hide Put, Sort, Pick, Moves, Rearranges;
    assert Canonical(a).children == Put(xs, flags, SortedActions(xs, flags));
    assert Canonical(b).children == Put(ys, flags, SortedActions(ys, flags));
    PutInjective(xs, ys, flags, SortedActions(xs, flags), SortedActions(ys, flags));
    CanonOrder();
    SortIsMultiset(CanonLess, Pick(xs, flags), Pick(ys, flags));
    if Canonical(a).children == Canonical(b).children {
      var p := FindMove(xs, ys, flags);
    }
    forall p: seq<nat> | Rearranges(p, flags) && Moves(p, xs, ys)
      ensures SortedActions(xs, flags) == SortedActions(ys, flags)
      ensures forall i :: 0 <= i < |xs| && !flags[i] ==> xs[i] == ys[i]
    {
      MoveKeepsPick(p, xs, ys, flags);
      MoveKeepsRest(p, xs, ys, flags);
    }
  }

  lemma {:induction false} MoveKeepsRest<T(!new)>(p: seq<nat>, xs: seq<T>, ys: seq<T>, flags: seq<bool>)
    requires Rearranges(p, flags) && Moves(p, xs, ys)
    ensures forall i :: 0 <= i < |xs| && !flags[i] ==> xs[i] == ys[i]
  {
  }

  /** Two elements have the same canonical form exactly when they are equivalent. */
  lemma {:induction false} CanonicalDecides(a: Element, b: Element)
    ensures Canonical(a) == Canonical(b) <==> Equivalent(a, b)
    decreases a
  {
    forall i, j | 0 <= i < |a.children| && 0 <= j < |b.children|
      ensures Canonical(a.children[i]) == Canonical(b.children[j]) <==> Equivalent(a.children[i], b.children[j])
    {
      CanonicalDecides(a.children[i], b.children[j]);
    }
    DecidesFromChildren(a, b);
  }

  /** Children of the same kinds, equivalent one by one after some rearrangement. */
  ghost predicate ChildrenEquivalent(a: Element, b: Element) {
    && |a.children| == |b.children| && Flags(a.children) == Flags(b.children)
    && exists p: seq<nat> ::
         && Rearranges(p, Flags(a.children))
         && forall i :: 0 <= i < |a.children| ==> Equivalent(a.children[i], b.children[p[i]])
  }

  lemma {:induction false} ChildrenDecide(a: Element, b: Element)
    requires forall i, j :: 0 <= i < |a.children| && 0 <= j < |b.children| ==>
               (Canonical(a.children[i]) == Canonical(b.children[j]) <==> Equivalent(a.children[i], b.children[j]))
    ensures Canonical(a).children == Canonical(b).children <==> ChildrenEquivalent(a, b)
  {
    hide Canonical, Equivalent;
    if Canonical(a).children == Canonical(b).children {
      EqualFormsEqualFlags(a, b);
    }
    if |a.children| == |b.children| && Flags(a.children) == Flags(b.children) {
      ChildrenAgree(a, b);
      forall p: seq<nat> | Rearranges(p, Flags(a.children))
        ensures Moves(p, CanonicalAll(a.children), CanonicalAll(b.children)) <==>
                forall i :: 0 <= i < |a.children| ==> Equivalent(a.children[i], b.children[p[i]])
      {
        MovesIsEquivalent(p, a, b);
      }
    }
  }

  lemma {:induction false} DecidesFromChildren(a: Element, b: Element)
    requires forall i, j :: 0 <= i < |a.children| && 0 <= j < |b.children| ==>
               (Canonical(a.children[i]) == Canonical(b.children[j]) <==> Equivalent(a.children[i], b.children[j]))
    ensures Canonical(a) == Canonical(b) <==> Equivalent(a, b)
  {
    hide Kept, Sort, TextOf, AttributeLess, Canonical, Equivalent, ChildrenEquivalent;
    AttributeOrder();
    SortIsMultiset(AttributeLess, Kept(a.attrib), Kept(b.attrib));
    ChildrenDecide(a, b);
    EquivalentParts(a, b);
    CanonicalParts(a, b);
  }

  lemma {:induction false} EquivalentParts(a: Element, b: Element)
    ensures Equivalent(a, b) <==>
            && a.tag == b.tag
            && multiset(Kept(a.attrib)) == multiset(Kept(b.attrib))
            && TextOf(a.text) == TextOf(b.text)
            && ChildrenEquivalent(a, b)
  {
    hide Kept, TextOf, Rearranges;
  }

  lemma {:induction false} CanonicalParts(a: Element, b: Element)
    ensures Canonical(a) == Canonical(b) <==>
            && a.tag == b.tag
            && Sort(AttributeLess, Kept(a.attrib)) == Sort(AttributeLess, Kept(b.attrib))
            && TextOf(a.text) == TextOf(b.text)
            && Canonical(a).children == Canonical(b).children
  {
    hide Kept, TextOf, Sort, Put;
  }

  lemma {:induction false} MovesIsEquivalent(p: seq<nat>, a: Element, b: Element)
    requires |a.children| == |b.children| && Rearranges(p, Flags(a.children))
    requires forall i, j :: 0 <= i < |a.children| && 0 <= j < |b.children| ==>
               (Canonical(a.children[i]) == Canonical(b.children[j]) <==> Equivalent(a.children[i], b.children[j]))
    ensures Moves(p, CanonicalAll(a.children), CanonicalAll(b.children)) <==>
            forall i :: 0 <= i < |a.children| ==> Equivalent(a.children[i], b.children[p[i]])
  {
  }

  /** Comparing canonical forms is an equivalence, and so is the intended relation. */
  lemma {:induction false} EquivalenceLaws(a: Element, b: Element, c: Element)
    ensures Equivalent(a, a)
    ensures Equivalent(a, b) ==> Equivalent(b, a)
    ensures Equivalent(a, b) && Equivalent(b, c) ==> Equivalent(a, c)
  {
    hide Canonical, Equivalent;
    CanonicalDecides(a, a);
    CanonicalDecides(a, b);
    CanonicalDecides(b, a);
    CanonicalDecides(b, c);
    CanonicalDecides(a, c);
  }

  // ----- Writing the sorted actions back -----

  /** The places of the flagged elements. */
  function Slots(flags: seq<bool>): (slots: seq<nat>)
    ensures |slots| == Count(flags)
    ensures forall k :: 0 <= k < |slots| ==> slots[k] < |flags|
  {
    if flags == [] then [] else
    var n := |flags| - 1;
    Slots(flags[..n]) + if flags[n] then [n] else []
  }

  lemma {:induction false} PutUpdate<T>(xs: seq<T>, flags: seq<bool>, ys: seq<T>, k: nat, v: T)
    requires |xs| == |flags| && |ys| == Count(flags) && k < |ys|
    ensures Put(xs, flags, ys)[Slots(flags)[k] := v] == Put(xs, flags, ys[k := v])
  {
    hide Put;
    var n := |xs| - 1;
    PutLast(xs, flags, ys);
    PutLast(xs, flags, ys[k := v]);
    if flags[n] {
      if k < |ys| - 1 {
        PutUpdate(xs[..n], flags[..n], ys[..|ys| - 1], k, v);
        assert ys[k := v][..|ys| - 1] == ys[..|ys| - 1][k := v];
      } else {
        assert ys[k := v][..|ys| - 1] == ys[..|ys| - 1];
      }
    } else {
      PutUpdate(xs[..n], flags[..n], ys, k, v);
    }
  }

  lemma {:induction false} PutPicked<T>(xs: seq<T>, flags: seq<bool>)
    requires |xs| == |flags|
    ensures |Pick(xs, flags)| == Count(flags)
    ensures Put(xs, flags, Pick(xs, flags)) == xs
  {
    PickLength(xs, flags);
    if xs != [] {
      PutPicked(xs[..|xs| - 1], flags[..|xs| - 1]);
      PutPickedLast(xs, flags);
    }
  }

  lemma {:induction false} PutPickedLast<T>(xs: seq<T>, flags: seq<bool>)
    requires |xs| == |flags| > 0 && |Pick(xs, flags)| == Count(flags)
    requires var n := |xs| - 1;
             && |Pick(xs[..n], flags[..n])| == Count(flags[..n])
             && Put(xs[..n], flags[..n], Pick(xs[..n], flags[..n])) == xs[..n]
    ensures Put(xs, flags, Pick(xs, flags)) == xs
  {
    hide Put, Pick;
    var n := |xs| - 1;
    var picked := Pick(xs, flags);
    PickAppends(xs, flags);
    PutLast(xs, flags, picked);
    assert xs == xs[..n] + [xs[n]];
    if flags[n] {
      assert picked[..|picked| - 1] == Pick(xs[..n], flags[..n]);
    }
  }

  /** `canonical`, which writes the sorted actions into the list of children one by one. */
  method CanonicalForm(element: Element) returns (c: Canon)
    ensures c == Canonical(element)
  {
    hide Put, Pick, Sort, Canonical, StrictOrder, Slots;
    var attributes := Sort(AttributeLess, Kept(element.attrib));
    var children := CanonicalAll(element.children);
    var flags := Flags(element.children);
    ghost var kids := children;
    var slots := Slots(flags);
    var picked := Pick(children, flags);
    PutPicked(kids, flags);
    ghost var sorted := SortedActions(kids, flags);
    SortedActionsIs(kids, flags);
    if |slots| > 1 {
      var ordered := Sort(CanonLess, picked);
      assert ordered[..0] + picked[0..] == picked;
      for k := 0 to |slots|
        invariant |children| == |flags|
        invariant children == Put(kids, flags, ordered[..k] + picked[k..])
      {
        PutUpdate(kids, flags, ordered[..k] + picked[k..], k, ordered[k]);
        assert (ordered[..k] + picked[k..])[k := ordered[k]] == ordered[..k + 1] + picked[k + 1..];
        children := children[slots[k] := ordered[k]];
      }
      assert ordered[..|slots|] + picked[|slots|..] == ordered;
    } else {
      ShortSorted(picked);
    }
    c := Canon(element.tag, attributes, TextOf(element.text), children);
    CanonicalIs(element);
  }

  lemma {:induction false} SortedActionsIs(kids: seq<Canon>, flags: seq<bool>)
    requires |kids| == |flags|
    ensures SortedActions(kids, flags) == Sort(CanonLess, Pick(kids, flags))
  {
  }

  lemma {:induction false} CanonicalIs(e: Element)
    ensures var kids, flags := CanonicalAll(e.children), Flags(e.children);
            Canonical(e) == Canon(e.tag, Sort(AttributeLess, Kept(e.attrib)), TextOf(e.text),
                                  Put(kids, flags, SortedActions(kids, flags)))
  {
  }

  lemma {:induction false} ShortSorted(xs: seq<Canon>)
    requires |xs| <= 1
    ensures Sort(CanonLess, xs) == xs
  {
    if xs != [] {
      assert xs[1..] == [];
      assert xs == [xs[0]];
    }
  }
}
