/**
 Worked cases of the rewrite and of one walk.
 */
module Examples {
  import opened Rewrite
  import opened Walker

  /** An `r` at the end of a word is kept. */
  lemma TrailingRKept()
    ensures Transform("car") == "car"
  {
  }

  /** An `r` before a word character becomes a lower-case `l`, also at the
      start of a word, since only the following character is inspected. */
  lemma RBeforeWordReplaced()
    ensures Transform("card") == "cald"
  {
    assert Pass1("card") == "card";
  }

  /** The replacement is lower case whatever the case of the `r`. */
  lemma UpperRBeforeWordReplaced()
    ensures Transform("Rat") == "lat"
  {
    assert Pass1("Rat") == "Rat";
  }

  /** `rr` in any case becomes a single lower-case `l`. */
  lemma DoubleRReplaced()
    ensures Transform("rr") == "l"
    ensures Transform("RR") == "l"
    ensures Transform("rR") == "l"
  {
  }

  /** Matches do not overlap: the leftmost `rr` is taken and the third `r`,
      now at the end, stays. */
  lemma TripleR()
    ensures Transform("rrr") == "lr"
  {
  }

  /** A double `r` inside a word; the `r` left at the end stays. */
  lemma Mirror()
    ensures Transform("mirror") == "milor"
  {
    var s := "mirror";
    assert ReplaceFrom(DoubleR, s, 4) == "or";
    assert ReplaceFrom(DoubleR, s, 2) == "lor";
    Pass2FixedIff("milor");
  }

  /** Every `r` followed by a letter is replaced, in every word: the `r` of
      "very" is followed by `y`. */
  lemma VeryRare()
    ensures Transform("very rare") == "vely lale"
  {
    var s := "very rare";
    var t := "vely lale";
    assert NoDoubleR(s) by {
      forall i | 0 <= i < |s| - 1 ensures !(IsR(s[i]) && IsR(s[i + 1])) {
      }
    }
    Pass1FixedIff(s);
    forall i | 0 <= i < |s| ensures Pass2At(s, i) == t[i] {
    }
    Pass2ByPoints(s, t);
  }

  lemma SentencePass1()
    ensures Pass1("A rare bird runs.") == "A rare bird runs."
  {
    var s := "A rare bird runs.";
    assert NoDoubleR(s) by {
      forall i | 0 <= i < |s| - 1 ensures !(IsR(s[i]) && IsR(s[i + 1])) {
      }
    }
    Pass1FixedIff(s);
  }

  lemma SentencePass2()
    ensures Pass2("A rare bird runs.") == "A lale bild luns."
  {
    var s := "A rare bird runs.";
    var t := "A lale bild luns.";
    forall i | 0 <= i < |s| ensures Pass2At(s, i) == t[i] {
    }
    Pass2ByPoints(s, t);
  }

  /** The sentence of the end-to-end scenario: no `rr`, and every `r` is
      followed by a letter. */
  lemma Sentence()
    ensures Transform("A rare bird runs.") == "A lale bild luns."
  {
    SentencePass1();
    SentencePass2();
  }

  /** The skip test ignores the tag's case. */
  lemma ScriptSkipped()
    ensures IsSkipped("SCRIPT")
  {
  }

  lemma StyleSkipped()
    ensures IsSkipped("Style")
  {
  }

  lemma ParagraphNotSkipped()
    ensures !IsSkipped("p")
  {
  }

  lemma DivNotSkipped()
    ensures !IsSkipped("div")
  {
  }

  /** The attribute step of an element whose only attribute is `title`. */
  lemma TitleOnly(title: string)
    requires !Settled(title)
    ensures RewriteAttributes(map["title" := title], CheckedAttributes)
         == Walked(map["title" := Transform(title)], [SetAttribute("title", Transform(title))])
  {
    var m := map["title" := title];
    var m' := map["title" := Transform(title)];
    assert RewriteValue(title) == Some(Transform(title));
    assert m["title" := Transform(title)] == m';
    assert CheckedAttributes[1..] == ["alt", "placeholder"];
    assert "alt" !in m' && "placeholder" !in m';
    assert RewriteAttributes(m', ["placeholder"]) == Walked(m', []);
    assert RewriteAttributes(m', ["alt", "placeholder"]) == Walked(m', []);
  }

  /** An element holding one text that the rewrite changes. */
  lemma TextOnlyWalk(tag: string, text: string)
    requires !IsSkipped(tag) && !Settled(text)
    ensures WalkElement(Element(tag, map[], [Text(text)]))
         == Walked(Element(tag, map[], [Text(Transform(text))]), [SetNodeValue(Transform(text))])
  {
    assert RewriteValue(text) == Some(Transform(text));
    assert RewriteAttributes(map[], CheckedAttributes) == Walked(map[], []);
    assert WalkChildren([Text(text)], true)
        == WalkedChildren([Text(Transform(text))], [SetNodeValue(Transform(text))], []);
  }

  lemma OnlyChild(tag: string, text: string)
    requires !IsSkipped(tag) && !Settled(text)
    ensures WalkChildren([Element(tag, map[], [Text(text)])], true)
         == WalkedChildren([Element(tag, map[], [Text(Transform(text))])], [], [SetNodeValue(Transform(text))])
  {
    TextOnlyWalk(tag, text);
  }

  /** An element with a `title` holding an element with a text: the title is
      written first, then the inner element's text. */
  lemma NestedWalk(outer: string, title: string, inner: string, text: string)
    requires !IsSkipped(outer) && !IsSkipped(inner) && !Settled(title) && !Settled(text)
    ensures
      WalkElement(Element(outer, map["title" := title], [Element(inner, map[], [Text(text)])]))
      == Walked(Element(outer, map["title" := Transform(title)], [Element(inner, map[], [Text(Transform(text))])]),
                [SetAttribute("title", Transform(title)), SetNodeValue(Transform(text))])
  {
    TitleOnly(title);
    OnlyChild(inner, text);
  }

  /** The end-to-end scenario: a `div` whose `title` is "mirror" holding a
      paragraph "A rare bird runs.". */
  lemma WalkDiv()
    ensures
      var d := Element("div", map["title" := "mirror"], [Element("p", map[], [Text("A rare bird runs.")])]);
      Walk(Some(d)) == Walked(
        Some(Element("div", map["title" := "milor"], [Element("p", map[], [Text("A lale bild luns.")])])),
        [SetAttribute("title", "milor"), SetNodeValue("A lale bild luns.")])
  {
    Mirror();
    Sentence();
    TransformFixedIff("mirror");
    TransformFixedIff("A rare bird runs.");
    DivNotSkipped();
    ParagraphNotSkipped();
    NestedWalk("div", "mirror", "p", "A rare bird runs.");
  }

  /** An element with a `title` and no children. */
  lemma TitleOnlyWalk(tag: string, title: string)
    requires !IsSkipped(tag) && !Settled(title)
    ensures WalkElement(Element(tag, map["title" := title], []))
         == Walked(Element(tag, map["title" := Transform(title)], []), [SetAttribute("title", Transform(title))])
  {
    TitleOnly(title);
  }

  lemma LowerScriptSkipped()
    ensures IsSkipped("script")
  {
  }

  lemma BoldNotSkipped()
    ensures !IsSkipped("b")
  {
  }

  /** The children of a skipped element: the text is kept, the child element
      is walked. */
  lemma SkippedChildren(text: string, child: string, title: string)
    requires !IsSkipped(child) && !Settled(title)
    ensures WalkChildren([Text(text), Element(child, map["title" := title], [])], false)
         == WalkedChildren([Text(text), Element(child, map["title" := Transform(title)], [])], [],
                           [SetAttribute("title", Transform(title))])
  {
    var b := Element(child, map["title" := title], []);
    var b' := Element(child, map["title" := Transform(title)], []);
    TitleOnlyWalk(child, title);
    assert WalkChildren([b], false) == WalkedChildren([b'], [], [SetAttribute("title", Transform(title))]);
    assert [Text(text), b][1..] == [b];
  }

  /** Inside a `script`, `style` or `textarea` element the text is kept, even
      one the rewrite would change, but a child element is still processed on
      its own. */
  lemma SkippedWalk(tag: string, text: string, child: string, title: string)
    requires IsSkipped(tag) && !IsSkipped(child) && !Settled(title)
    ensures WalkElement(Element(tag, map[], [Text(text), Element(child, map["title" := title], [])]))
         == Walked(Element(tag, map[], [Text(text), Element(child, map["title" := Transform(title)], [])]),
                   [SetAttribute("title", Transform(title))])
  {
    SkippedChildren(text, child, title);
  }

  lemma ScriptWalk()
    ensures WalkElement(Element("script", map[], [Text("rr"), Element("b", map["title" := "mirror"], [])]))
         == Walked(Element("script", map[], [Text("rr"), Element("b", map["title" := "milor"], [])]),
                   [SetAttribute("title", "milor")])
  {
    Mirror();
    TransformFixedIff("mirror");
    LowerScriptSkipped();
    BoldNotSkipped();
    SkippedWalk("script", "rr", "b", "mirror");
  }
}
