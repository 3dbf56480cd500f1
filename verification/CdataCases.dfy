/** What the element of a script looks like, character by character. */
module CdataCases {
  import opened Options
  import opened Cdata

  /** Without a closing mark the script stands in one section. */
  lemma {:induction false} OneSectionIs(tag: string, script: string)
    requires NoClose(script)
    ensures Element(tag, script) == "  <" + tag + "><![CDATA[" + script + "]]></" + tag + ">\n"
  {
    assert ">" + OPEN + script == "><![CDATA[" + script;
    assert CLOSE + "</" == "]]></";
    assert Element(tag, script) == "  <" + tag + (">" + OPEN + script) + (CLOSE + "</") + tag + ">\n";
  }

  /** Every closing mark, from the left, is cut between its second bracket and its angle. */
  lemma {:induction false} MarkIsCut(a: string, b: string)
    requires NoClose(a + "]]")
    ensures Safe(a + "]]>" + b) == a + "]]]]><![CDATA[>" + Safe(b)
  {
    hide Safe;
    var s := a + "]]>" + b;
    FirstMark(a, b);
    SafeUnfolds(s, |a|);
    assert s[..|a|] == a && s[|a| + 3..] == b;
    assert "]]" + CLOSE + OPEN + ">" == "]]]]><![CDATA[>";
    assert a + "]]" + CLOSE + OPEN + ">" + Safe(b) == a + ("]]" + CLOSE + OPEN + ">") + Safe(b);
  }

  lemma {:induction false} SafeUnfolds(s: string, i: nat)
    requires FindClose(s, 0) == Some(i)
    ensures Safe(s) == s[..i] + "]]" + CLOSE + OPEN + ">" + Safe(s[i + 3..])
  {
    hide FindClose;
  }

  lemma {:induction false} FirstMark(a: string, b: string)
    requires NoClose(a + "]]")
    ensures FindClose(a + "]]>" + b, 0) == Some(|a|)
  {
    hide FindClose;
    var s := a + "]]>" + b;
    assert ClosesAt(s, |a|);
    forall i | 0 <= i < |a| ensures !ClosesAt(s, i) {
      assert !ClosesAt(a + "]]", i);
      var t := a + "]]";
      assert i + 2 < |t| ==> s[i] == t[i] && s[i + 1] == t[i + 1] && s[i + 2] == t[i + 2];
    }
    var r := FindClose(s, 0);
  }
}
