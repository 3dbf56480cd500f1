/** What equal canonical forms mean, with the names of attributes written out. */
module NavigationNames {
  import opened Options
  import opened Strings
  import opened Spelling
  import opened Sorting
  import opened Navigation

  /** The name is `local`, or `local` in some namespace, which the parser writes in front of it
      in braces. */
  predicate Named(name: string, local: string) {
    name == local || (|name| > |local| && name[|name| - |local| - 1..] == "}" + local)
  }

  lemma {:induction false} LocalNameIs(name: string, local: string)
    requires '}' !in local
    ensures LocalName(name) == local <==> Named(name, local)
  {
    if name != [] && name[|name| - 1] != '}' {
      var n := |name| - 1;
      if local == [] {
        assert LocalName(name)[|LocalName(name)| - 1] == name[n];
        assert name[n..] == [name[n]];
      } else {
        var m := |local| - 1;
        LocalNameIs(name[..n], local[..m]);
        OneShorter(name, local);
        LastOfLocal(name, local);
      }
    } else if name != [] {
      assert local != [] && |name| > |local| ==> (name[|name| - |local| - 1..])[|local|] == '}';
      assert local != [] ==> ("}" + local)[|local|] == local[|local| - 1];
    }
  }

  lemma {:induction false} OneShorter(name: string, local: string)
    requires name != [] && local != []
    ensures var n, m := |name| - 1, |local| - 1;
            Named(name, local) <==> Named(name[..n], local[..m]) && name[n] == local[m]
  {
    var n, m := |name| - 1, |local| - 1;
    assert name == name[..n] + [name[n]] && local == local[..m] + [local[m]];
    if n > m {
      var a, b := name[n - m - 1..n], "}" + local[..m];
      assert name[|name| - |local| - 1..] == a + [name[n]];
      assert "}" + local == b + [local[m]];
      assert name[..n][n - m - 1..] == a;
      assert |a| == |b|;
      assert (a + [name[n]])[..m + 1] == a && (b + [local[m]])[..m + 1] == b;
      assert (a + [name[n]])[m + 1] == name[n] && (b + [local[m]])[m + 1] == local[m];
    }
  }

  lemma {:induction false} LastOfLocal(name: string, local: string)
    requires name != [] && name[|name| - 1] != '}' && local != []
    ensures var n, m := |name| - 1, |local| - 1;
            LocalName(name) == local <==> LocalName(name[..n]) == local[..m] && name[n] == local[m]
  {
    var n, m := |name| - 1, |local| - 1;
    assert local == local[..m] + [local[m]];
  }

  // ----- The meaning of an element -----

  /** An action: a `type` attribute, in whatever namespace, with the value `ActionDefinition`. */
  predicate IsActionNode(e: Element) {
    exists a :: a in e.attrib && Named(a.0, "type") && a.1 == "ActionDefinition"
  }

  lemma {:induction false} ActionIs(e: Element)
    ensures IsAction(e) <==> IsActionNode(e)
  {
    hide LocalName, Named;
    forall a: Attribute ensures IsActionAttribute(a) <==> Named(a.0, "type") && a.1 == "ActionDefinition" {
      LocalNameIs(a.0, "type");
    }
  }

  /** Only the control ids, in whatever namespace, may differ, and the order. */
  ghost predicate SameAttributes(xs: seq<Attribute>, ys: seq<Attribute>) {
    forall a: Attribute :: !Named(a.0, "ControlGUID") ==> multiset(xs)[a] == multiset(ys)[a]
  }

  lemma {:induction false} KeptCounts(xs: seq<Attribute>, a: Attribute)
    ensures multiset(Kept(xs))[a] == if Named(a.0, "ControlGUID") then 0 else multiset(xs)[a]
  {
    hide LocalName, Named;
    if xs != [] {
      KeptCounts(xs[1..], a);
      LocalNameIs(xs[0].0, "ControlGUID");
      LocalNameIs(a.0, "ControlGUID");
      assert xs == [xs[0]] + xs[1..];
    }
  }

  lemma {:induction false} AttributesAre(xs: seq<Attribute>, ys: seq<Attribute>)
    ensures multiset(Kept(xs)) == multiset(Kept(ys)) <==> SameAttributes(xs, ys)
  {
    hide Kept, Named;
    forall a: Attribute
      ensures multiset(Kept(xs))[a] == if Named(a.0, "ControlGUID") then 0 else multiset(xs)[a]
      ensures multiset(Kept(ys))[a] == if Named(a.0, "ControlGUID") then 0 else multiset(ys)[a]
    {
      KeptCounts(xs, a);
      KeptCounts(ys, a);
    }
  }

  /** `x` is the text without the white space around it. */
  ghost predicate Content(text: Option<string>, x: string) {
    && (x == [] || (!PythonWhite(x[0]) && !PythonWhite(x[|x| - 1])))
    && (if text.None? then x == []
        else exists before, after :: Framed(text.value, before, x, after))
  }

  predicate Framed(s: string, before: string, x: string, after: string) {
    s == before + x + after && AllPythonWhite(before) && AllPythonWhite(after)
  }

  lemma {:induction false} StripBetween(before: string, x: string, after: string)
    requires AllPythonWhite(before) && AllPythonWhite(after)
    requires x == [] || (!PythonWhite(x[0]) && !PythonWhite(x[|x| - 1]))
    ensures Strip(before + x + after) == x
    decreases |before| + |after|
  {
    hide PythonWhite, Strip;
    var s := before + x + after;
    StripUnfolds(s);
    if s != [] {
      PythonWhiteIs(s[0]);
      PythonWhiteIs(s[|s| - 1]);
      if before != [] {
        assert s[0] == before[0];
        assert s[1..] == before[1..] + x + after;
        StripBetween(before[1..], x, after);
      } else if x == [] {
        assert s == after && s[1..] == after[1..] + x + [];
        assert after[1..] + x + [] == [] + x + after[1..];
        StripBetween([], x, after[1..]);
      } else if after != [] {
        assert s[0] == x[0];
        var n := |after| - 1;
        assert s[|s| - 1] == after[n] && s[..|s| - 1] == before + x + after[..n];
        StripBetween(before, x, after[..n]);
      } else {
        assert s == x;
      }
    }
  }

  lemma {:induction false} TextIs(text: Option<string>, x: string)
    ensures Content(text, x) <==> x == TextOf(text)
  {
    hide PythonWhite, Strip, AllPythonWhite;
    if text.Some? {
      var before, after := StripSplits(text.value);
      assert Framed(text.value, before, Strip(text.value), after);
      if Content(text, x) {
        var b, a :| Framed(text.value, b, x, a);
        StripBetween(b, x, a);
      }
    }
  }

  ghost predicate SameText(a: Option<string>, b: Option<string>) {
    exists x :: Content(a, x) && Content(b, x)
  }

  lemma {:induction false} TextsAre(a: Option<string>, b: Option<string>)
    ensures TextOf(a) == TextOf(b) <==> SameText(a, b)
  {
    hide Content, TextOf;
    TextIs(a, TextOf(a));
    TextIs(b, TextOf(a));
    if SameText(a, b) {
      var x :| Content(a, x) && Content(b, x);
      TextIs(a, x);
      TextIs(b, x);
    }
  }

  /** The places at which the children differ in being actions, or are moved though they are
      none, are empty. */
  ghost predicate Reorders(p: seq<nat>, xs: seq<Element>, ys: seq<Element>) {
    && |p| == |xs| == |ys|
    && (forall i :: 0 <= i < |p| ==> p[i] < |p|)
    && (forall i, j :: 0 <= i < j < |p| ==> p[i] != p[j])
    && (forall i :: 0 <= i < |p| ==> (IsActionNode(xs[i]) <==> IsActionNode(ys[i])))
    && (forall i :: 0 <= i < |p| && !IsActionNode(xs[i]) ==> p[i] == i)
  }

  /** Two elements mean the same: they differ at most in control ids, the order of attributes,
      white space around their text, what follows their end, and the order of actions, each
      among the places that actions have; and so do their children. */
  ghost predicate SameMeaning(a: Element, b: Element)
    decreases a
  {
    && a.tag == b.tag && SameAttributes(a.attrib, b.attrib) && SameText(a.text, b.text)
    && |a.children| == |b.children|
    && exists p: seq<nat> ::
         && Reorders(p, a.children, b.children)
         && forall i :: 0 <= i < |a.children| ==> SameMeaning(a.children[i], b.children[p[i]])
  }

  lemma {:induction false} ReordersIs(p: seq<nat>, xs: seq<Element>, ys: seq<Element>)
    ensures Reorders(p, xs, ys) <==> |xs| == |ys| && Flags(xs) == Flags(ys) && Rearranges(p, Flags(xs))
  {
    hide IsAction, IsActionNode;
    forall e: Element ensures IsAction(e) <==> IsActionNode(e) {
      ActionIs(e);
    }
    if Reorders(p, xs, ys) {
      assert forall i :: 0 <= i < |xs| ==> Flags(xs)[i] == Flags(ys)[i];
    }
    if |xs| == |ys| && Flags(xs) == Flags(ys) && Rearranges(p, Flags(xs)) {
      forall i | 0 <= i < |p| ensures IsActionNode(xs[i]) <==> IsActionNode(ys[i]) {
        assert Flags(xs)[i] == Flags(ys)[i];
      }
      forall i | 0 <= i < |p| && !IsActionNode(xs[i]) ensures p[i] == i {
        assert !Flags(xs)[i];
      }
    }
  }

  lemma {:induction false} EquivalentIs(a: Element, b: Element)
    ensures Equivalent(a, b) <==> SameMeaning(a, b)
    decreases a
  {
    hide SameAttributes, SameText, TextOf, Kept, Reorders, Rearranges, IsAction;
    AttributesAre(a.attrib, b.attrib);
    TextsAre(a.text, b.text);
    forall i, j | 0 <= i < |a.children| && 0 <= j < |b.children|
      ensures Equivalent(a.children[i], b.children[j]) <==> SameMeaning(a.children[i], b.children[j])
    {
      EquivalentIs(a.children[i], b.children[j]);
    }
    forall p: seq<nat>
      ensures Reorders(p, a.children, b.children) <==>
              && |a.children| == |b.children| && Flags(a.children) == Flags(b.children)
              && Rearranges(p, Flags(a.children))
    {
      ReordersIs(p, a.children, b.children);
    }
    ChildrenAre(a, b);
    EquivalentUnfolds(a, b);
    MeaningUnfolds(a, b);
  }

  lemma {:induction false} EquivalentUnfolds(a: Element, b: Element)
    ensures Equivalent(a, b) <==>
            && a.tag == b.tag && multiset(Kept(a.attrib)) == multiset(Kept(b.attrib))
            && TextOf(a.text) == TextOf(b.text)
            && ChildrenEquivalent(a, b)
  {
  }

  ghost predicate ChildrenMeanTheSame(a: Element, b: Element) {
    && |a.children| == |b.children|
    && exists p: seq<nat> ::
         && Reorders(p, a.children, b.children)
         && forall i :: 0 <= i < |a.children| ==> SameMeaning(a.children[i], b.children[p[i]])
  }

  lemma {:induction false} MeaningUnfolds(a: Element, b: Element)
    ensures SameMeaning(a, b) <==>
            && a.tag == b.tag && SameAttributes(a.attrib, b.attrib) && SameText(a.text, b.text)
            && ChildrenMeanTheSame(a, b)
  {
  }

  /** Equivalence and meaning agree on the children. */
  ghost predicate Agree(a: Element, b: Element) {
    forall i, j :: 0 <= i < |a.children| && 0 <= j < |b.children| ==>
      (Equivalent(a.children[i], b.children[j]) <==> SameMeaning(a.children[i], b.children[j]))
  }

  lemma {:induction false} ChildrenAre(a: Element, b: Element)
    requires Agree(a, b)
    ensures ChildrenEquivalent(a, b) <==> ChildrenMeanTheSame(a, b)
  {
    hide ChildrenEquivalent, ChildrenMeanTheSame;
    if ChildrenEquivalent(a, b) {
      EquivalentChildren(a, b);
    }
    if ChildrenMeanTheSame(a, b) {
      MeantChildren(a, b);
    }
  }

  lemma {:induction false} EquivalentChildren(a: Element, b: Element)
    requires Agree(a, b) && ChildrenEquivalent(a, b)
    ensures ChildrenMeanTheSame(a, b)
  {
    hide Equivalent, SameMeaning, IsAction, IsActionNode;
    var p: seq<nat> :| && Rearranges(p, Flags(a.children))
                       && forall i :: 0 <= i < |a.children| ==> Equivalent(a.children[i], b.children[p[i]]);
    ReordersIs(p, a.children, b.children);
    forall i | 0 <= i < |a.children| ensures SameMeaning(a.children[i], b.children[p[i]]) {
      assert Equivalent(a.children[i], b.children[p[i]]);
    }
  }

  lemma {:induction false} MeantChildren(a: Element, b: Element)
    requires Agree(a, b) && ChildrenMeanTheSame(a, b)
    ensures ChildrenEquivalent(a, b)
  {
    hide Equivalent, SameMeaning, IsAction, IsActionNode;
    var p: seq<nat> :| && Reorders(p, a.children, b.children)
                       && forall i :: 0 <= i < |a.children| ==> SameMeaning(a.children[i], b.children[p[i]]);
    ReordersIs(p, a.children, b.children);
    forall i | 0 <= i < |a.children| ensures Equivalent(a.children[i], b.children[p[i]]) {
      assert SameMeaning(a.children[i], b.children[p[i]]);
    }
  }

  /** Equal canonical forms mean the same, and nothing else does. */
  lemma {:induction false} FormsMeanTheSame(a: Element, b: Element)
    ensures Canonical(a) == Canonical(b) <==> SameMeaning(a, b)
  {
    hide Canonical, Equivalent, SameMeaning;
    CanonicalDecides(a, b);
    EquivalentIs(a, b);
  }

  // ----- Single changes -----

  /** The parser's name of an attribute with a prefix is one of these. */
  lemma {:induction false} InNamespace(namespace: string, local: string)
    ensures Named(local, local) && Named("{" + namespace + "}" + local, local)
  {
    var name := "{" + namespace + "}" + local;
    assert name[|name| - |local| - 1..] == "}" + local;
  }

  function Swapped(xs: seq<Element>, i: nat, j: nat): seq<Element>
    requires i < |xs| && j < |xs|
  {
    xs[i := xs[j]][j := xs[i]]
  }

  lemma {:induction false} MeansItself(e: Element)
    ensures SameMeaning(e, e)
  {
    hide Canonical, SameMeaning;
    FormsMeanTheSame(e, e);
  }

  /** Actions that trade places keep the form, under whatever prefix the attribute `type` stands. */
  lemma {:induction false} ActionsSwap(e: Element, i: nat, j: nat)
    requires i < |e.children| && j < |e.children|
    requires IsActionNode(e.children[i]) && IsActionNode(e.children[j])
    ensures Canonical(e.(children := Swapped(e.children, i, j))) == Canonical(e)
  {
    hide Canonical, SameMeaning, IsActionNode, SameAttributes, SameText;
    var xs, ys := e.children, Swapped(e.children, i, j);
    var n := |xs|;
    var p: seq<nat> := seq(n, k => if k == i then j else if k == j then i else k);
    forall k | 0 <= k < n ensures SameMeaning(xs[k], ys[p[k]]) {
      assert ys[p[k]] == xs[k];
      MeansItself(xs[k]);
    }
    assert Reorders(p, xs, ys);
    MeansItself(e);
    MeaningUnfolds(e, e);
    MeaningUnfolds(e, e.(children := ys));
    FormsMeanTheSame(e, e.(children := ys));
  }

  lemma {:induction false} OwnPlace(a: Element, b: Element, i: nat)
    requires ChildrenMeanTheSame(a, b) && i < |a.children| && !IsActionNode(a.children[i])
    ensures |b.children| == |a.children| && SameMeaning(a.children[i], b.children[i])
  {
    hide SameMeaning, IsActionNode;
  }

  /** Other children do not, unless they mean the same. */
  lemma {:induction false} OthersDoNotSwap(e: Element, i: nat, j: nat)
    requires i < |e.children| && j < |e.children|
    requires !IsActionNode(e.children[i]) && !SameMeaning(e.children[i], e.children[j])
    ensures Canonical(e.(children := Swapped(e.children, i, j))) != Canonical(e)
  {
    hide Canonical, SameMeaning, IsActionNode, SameAttributes, SameText, ChildrenMeanTheSame;
    var e' := e.(children := Swapped(e.children, i, j));
    MeansItself(e.children[i]);
    assert e'.children[i] == e.children[j];
    FormsMeanTheSame(e, e');
    MeaningUnfolds(e, e');
    if ChildrenMeanTheSame(e, e') {
      OwnPlace(e, e', i);
    }
  }

  /** Another control id keeps the form. */
  lemma {:induction false} ControlIdIsFree(e: Element, i: nat, id: string)
    requires i < |e.attrib| && Named(e.attrib[i].0, "ControlGUID")
    ensures Canonical(e.(attrib := e.attrib[i := (e.attrib[i].0, id)])) == Canonical(e)
  {
    hide Canonical, SameMeaning, SameText, Named, ChildrenMeanTheSame;
    var xs, ys := e.attrib, e.attrib[i := (e.attrib[i].0, id)];
    forall a: Attribute | !Named(a.0, "ControlGUID") ensures multiset(xs)[a] == multiset(ys)[a] {
      assert multiset(ys) == multiset(xs) - multiset{xs[i]} + multiset{ys[i]};
    }
    MeansItself(e);
    MeaningUnfolds(e, e);
    MeaningUnfolds(e, e.(attrib := ys));
    SameChildren(e, e.(attrib := ys));
    FormsMeanTheSame(e, e.(attrib := ys));
  }

  lemma {:induction false} SameChildren(a: Element, b: Element)
    requires a.children == b.children && ChildrenMeanTheSame(a, a)
    ensures ChildrenMeanTheSame(a, b)
  {
    hide Reorders, SameMeaning;
  }

  /** Another value of any other attribute changes it. */
  lemma {:induction false} OtherAttributesCount(e: Element, i: nat, value: string)
    requires i < |e.attrib| && !Named(e.attrib[i].0, "ControlGUID") && value != e.attrib[i].1
    ensures Canonical(e.(attrib := e.attrib[i := (e.attrib[i].0, value)])) != Canonical(e)
  {
    hide Canonical, SameMeaning, SameText, Named, ChildrenMeanTheSame;
    var xs, ys := e.attrib, e.attrib[i := (e.attrib[i].0, value)];
    assert multiset(ys) == multiset(xs) - multiset{xs[i]} + multiset{ys[i]};
    assert multiset(ys)[xs[i]] == multiset(xs)[xs[i]] - 1;
    MeaningUnfolds(e, e.(attrib := ys));
    FormsMeanTheSame(e, e.(attrib := ys));
  }
}
