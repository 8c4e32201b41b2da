/**
 The tree walker of the content script (`substituirTextoEmTudo`) over an
 abstract document tree.

 The script takes a snapshot of the root and all its descendant elements in
 document order and processes each element in turn: elements whose lower-cased
 tag is `script`, `style` or `textarea` are skipped; every other element has
 its `title`, `alt` and `placeholder` attributes rewritten when present, then
 the values of its direct text-node children. A value is written back only
 when the rewrite changed it; each write is a DOM mutation.

 Processing an element touches only its own attributes and its own direct text
 children, never the tree's shape, so walking the snapshot in document order
 is the pre-order structural recursion below: an element's own writes, then
 those of each child element's subtree, child by child.
 */
module Walker {
  import opened Rewrite

  /** A DOM node: a text node, any other non-element node (comment, CDATA
      section, processing instruction), or an element with its attributes
      and child nodes in document order. */
  datatype Node =
    | Text(value: string)
    | Other(data: string)
    | Element(tag: string, attributes: map<string, string>, children: seq<Node>)

  datatype Option<T> = None | Some(value: T)

  /** A DOM mutation the walker performs. */
  datatype Write =
    | SetAttribute(name: string, value: string)
    | SetNodeValue(value: string)

  /** A value produced by the walker together with the writes that produced it,
      in the order they happen. */
  datatype Walked<T> = Walked(value: T, writes: seq<Write>)

  /** The attributes the walker inspects, in the order it inspects them. */
  const CheckedAttributes: seq<string> := ["title", "alt", "placeholder"]

  /** ASCII lower-casing. */
  function ToLower(s: string): (r: string)
    ensures |r| == |s|
    ensures forall i :: 0 <= i < |s| ==>
      r[i] == if 'A' <= s[i] <= 'Z' then (s[i] - 'A' + 'a') as char else s[i]
  {
    if |s| == 0 then ""
    else [if 'A' <= s[0] <= 'Z' then (s[0] - 'A' + 'a') as char else s[0]] + ToLower(s[1..])
  }

  /** Elements whose own attributes and text children are left alone. */
  predicate IsSkipped(tag: string) {
    var t := ToLower(tag);
    t == "script" || t == "style" || t == "textarea"
  }

  /** `t` spells the lower-case word `w` in any mix of cases. */
  predicate SameIgnoringCase(t: string, w: string) {
    |t| == |w| && forall i :: 0 <= i < |t| ==>
      t[i] == w[i] || ('a' <= w[i] <= 'z' && t[i] == (w[i] - 'a' + 'A') as char)
  }

  lemma LowerMatches(t: string, w: string)
    requires forall i :: 0 <= i < |w| ==> 'a' <= w[i] <= 'z'
    ensures ToLower(t) == w <==> SameIgnoringCase(t, w)
  {
    if SameIgnoringCase(t, w) {
      forall i | 0 <= i < |t|
        ensures ToLower(t)[i] == w[i]
      {
      }
    }
  }

  /** A tag is skipped exactly when it spells `script`, `style` or `textarea`
      in any mix of cases. */
  lemma IsSkippedIff(tag: string)
    ensures IsSkipped(tag) <==>
      SameIgnoringCase(tag, "script") || SameIgnoringCase(tag, "style") || SameIgnoringCase(tag, "textarea")
  {
    LowerMatches(tag, "script");
    LowerMatches(tag, "style");
    LowerMatches(tag, "textarea");
  }

  /** The new value to write for `v`, or `None` when the rewrite leaves it as is. */
  function RewriteValue(v: string): (r: Option<string>)
    ensures r.None? <==> Settled(v)
    ensures r.Some? ==> r.value == Transform(v) && r.value != v
    ensures r.Some? ==> Settled(r.value) && Untouched(r.value) == Untouched(v)
  {
    TransformFixedIff(v);
    TransformKeepsOthers(v);
    var t := Transform(v);
    if t != v then Some(t) else None
  }

  /** The `title`, `alt` and `placeholder` step for one element: each present
      attribute is rewritten, and written back only when its value changed. */
  function RewriteAttributes(attrs: map<string, string>, names: seq<string>): (r: Walked<map<string, string>>)
    ensures r.value.Keys == attrs.Keys
    ensures forall k :: k in attrs ==> r.value[k] == if k in names then Transform(attrs[k]) else attrs[k]
    ensures forall w :: w in r.writes ==>
      && w.SetAttribute? && w.name in names && w.name in attrs
      && w.value == Transform(attrs[w.name]) && w.value != attrs[w.name]
    ensures |r.writes| <= |names|
    ensures r.writes == [] <==> r.value == attrs
    decreases |names|
  {
    if |names| == 0 then Walked(attrs, [])
    else
      var name := names[0];
      var u := if name in attrs then RewriteValue(attrs[name]) else None;
      if u.Some? then
        var rest := RewriteAttributes(attrs[name := u.value], names[1..]);
        TransformIdempotent(attrs[name]);
        Walked(rest.value, [SetAttribute(name, u.value)] + rest.writes)
      else
        RewriteAttributes(attrs, names[1..])
  }

  /** The result of walking the children of one element: the new children,
      the writes to the element's own text children, and the writes made in
      the subtrees of its child elements. */
  datatype WalkedChildren = WalkedChildren(nodes: seq<Node>, textWrites: seq<Write>, nestedWrites: seq<Write>)

  /** Walks an element's subtree: its own step (unless skipped), then its
      child elements' subtrees in document order. Non-element nodes are not
      visited. */
  function WalkElement(n: Node): (r: Walked<Node>)
    ensures n.Element? ==> r.value.Element? && r.value.tag == n.tag && |r.value.children| == |n.children|
    decreases n
  {
    match n
    case Element(tag, attrs, kids) =>
      var skip := IsSkipped(tag);
      var a := if skip then Walked(attrs, []) else RewriteAttributes(attrs, CheckedAttributes);
      var c := WalkChildren(kids, !skip);
      Walked(Element(tag, a.value, c.nodes), a.writes + c.textWrites + c.nestedWrites)
    case _ => Walked(n, [])
  }

  /** The children of an element: direct text children are rewritten when
      `rewriteText` holds, child elements are walked, other nodes are kept. */
  function WalkChildren(kids: seq<Node>, rewriteText: bool): (r: WalkedChildren)
    ensures |r.nodes| == |kids|
    decreases kids
  {
    if |kids| == 0 then WalkedChildren([], [], [])
    else
      var rest := WalkChildren(kids[1..], rewriteText);
      match kids[0]
      case Text(v) =>
        var u := if rewriteText then RewriteValue(v) else None;
        if u.Some? then
          WalkedChildren([Text(u.value)] + rest.nodes, [SetNodeValue(u.value)] + rest.textWrites, rest.nestedWrites)
        else
          WalkedChildren([kids[0]] + rest.nodes, rest.textWrites, rest.nestedWrites)
      case Other(_) =>
        WalkedChildren([kids[0]] + rest.nodes, rest.textWrites, rest.nestedWrites)
      case Element(_, _, _) =>
        var e := WalkElement(kids[0]);
        WalkedChildren([e.value] + rest.nodes, rest.textWrites, e.writes + rest.nestedWrites)
  }

  /** `substituirTextoEmTudo(root)`: a missing root, or one that is not an
      element, is left alone. */
  function Walk(root: Option<Node>): (r: Walked<Option<Node>>)
    ensures r.value.Some? <==> root.Some?
    ensures root.Some? && root.value.Element? ==> Rewrote(root.value, r.value.value)
    ensures root.None? || !root.value.Element? ==> r.writes == []
    ensures r.writes == [] <==> r.value == root
    ensures forall w :: w in r.writes ==> Settled(w.value) && (w.SetAttribute? ==> w.name in CheckedAttributes)
    ensures root.Some? ==> r.writes == Changes(root.value, r.value.value)
  {
    if root.Some? && root.value.Element? then
      var w := WalkElement(root.value);
      WalkElementMeetsSpec(root.value);
      WalkElementWrites(root.value);
      WalkElementChanges(root.value);
      Walked(Some(w.value), w.writes)
    else Walked(root, [])
  }

  // ---------------------------------------------------------------------------
  // The walk, specified node by node

  /** What one walk does to an element's subtree: the same tag, the same
      attribute names, `title`/`alt`/`placeholder` rewritten unless the
      element is skipped, every other attribute kept, and each child treated
      by `ChildRewrote`. A non-element is left as it is. */
  ghost predicate Rewrote(orig: Node, res: Node)
    decreases orig, 1
  {
    match orig
    case Element(tag, attrs, kids) =>
      && res.Element? && res.tag == tag
      && res.attributes.Keys == attrs.Keys
      && (forall k :: k in attrs ==>
            res.attributes[k] == if !IsSkipped(tag) && k in CheckedAttributes then Transform(attrs[k]) else attrs[k])
      && |res.children| == |kids|
      && (forall i :: 0 <= i < |kids| ==> ChildRewrote(kids[i], res.children[i], !IsSkipped(tag)))
    case _ => res == orig
  }

  /** A child node: a text child is rewritten exactly when its parent is not
      skipped; a child element is walked whatever its parent is, since it is
      in the snapshot on its own; other nodes are kept. */
  ghost predicate ChildRewrote(orig: Node, res: Node, rewriteText: bool)
    decreases orig, 2
  {
    match orig
    case Text(v) => res == Text(if rewriteText then Transform(v) else v)
    case Other(_) => res == orig
    case Element(_, _, _) => Rewrote(orig, res)
  }

  /** The walk of a subtree meets the node-by-node specification. */
  lemma WalkElementMeetsSpec(n: Node)
    ensures Rewrote(n, WalkElement(n).value)
    decreases n, 1
  {
    if n.Element? {
      WalkChildrenMeetsSpec(n.children, !IsSkipped(n.tag));
    }
  }

  /** The walk of a sequence of children meets the specification child by child. */
  lemma WalkChildrenMeetsSpec(kids: seq<Node>, rewriteText: bool)
    ensures |WalkChildren(kids, rewriteText).nodes| == |kids|
    ensures forall i :: 0 <= i < |kids| ==> ChildRewrote(kids[i], WalkChildren(kids, rewriteText).nodes[i], rewriteText)
    decreases kids
  {
    if |kids| > 0 {
      WalkChildrenMeetsSpec(kids[1..], rewriteText);
      var r := WalkChildren(kids, rewriteText);
      var rest := WalkChildren(kids[1..], rewriteText);
      assert r.nodes[1..] == rest.nodes;
      if kids[0].Element? {
        WalkElementMeetsSpec(kids[0]);
      } else if kids[0].Text? {
        TransformFixedIff(kids[0].value);
      }
      forall i | 1 <= i < |kids|
        ensures ChildRewrote(kids[i], r.nodes[i], rewriteText)
      {
        assert kids[i] == kids[1..][i - 1];
      }
    }
  }

  /** The specification determines the result: no two different trees meet it. */
  lemma RewroteUnique(n: Node, a: Node, b: Node)
    requires Rewrote(n, a) && Rewrote(n, b)
    ensures a == b
    decreases n, 1
  {
    if n.Element? {
      forall i | 0 <= i < |n.children|
        ensures a.children[i] == b.children[i]
      {
        ChildRewroteUnique(n.children[i], a.children[i], b.children[i], !IsSkipped(n.tag));
      }
      assert a.children == b.children;
      assert a.attributes == b.attributes;
    }
  }

  lemma ChildRewroteUnique(n: Node, a: Node, b: Node, rewriteText: bool)
    requires ChildRewrote(n, a, rewriteText) && ChildRewrote(n, b, rewriteText)
    ensures a == b
    decreases n, 2
  {
    if n.Element? {
      RewroteUnique(n, a, b);
    }
  }

  // ---------------------------------------------------------------------------
  // Writes

  /** A walk writes exactly when it changes the subtree; every written value is
      one the rewrite leaves alone, and every attribute written is `title`,
      `alt` or `placeholder`. */
  lemma WalkElementWrites(n: Node)
    ensures WalkElement(n).writes == [] <==> WalkElement(n).value == n
    ensures forall w :: w in WalkElement(n).writes ==>
      Settled(w.value) && (w.SetAttribute? ==> w.name in CheckedAttributes)
    decreases n, 1
  {
    if n.Element? {
      var skip := IsSkipped(n.tag);
      var a := if skip then Walked(n.attributes, []) else RewriteAttributes(n.attributes, CheckedAttributes);
      WalkChildrenWrites(n.children, !skip);
    }
  }

  /** The same for the children of one element. */
  lemma WalkChildrenWrites(kids: seq<Node>, rewriteText: bool)
    ensures var r := WalkChildren(kids, rewriteText);
      r.textWrites + r.nestedWrites == [] <==> r.nodes == kids
    ensures forall w :: w in WalkChildren(kids, rewriteText).textWrites ==> w.SetNodeValue? && Settled(w.value)
    ensures forall w :: w in WalkChildren(kids, rewriteText).nestedWrites ==>
      Settled(w.value) && (w.SetAttribute? ==> w.name in CheckedAttributes)
    decreases kids
  {
    if |kids| > 0 {
      WalkChildrenWrites(kids[1..], rewriteText);
      var r := WalkChildren(kids, rewriteText);
      var rest := WalkChildren(kids[1..], rewriteText);
      assert kids == [kids[0]] + kids[1..];
      assert r.nodes == [r.nodes[0]] + rest.nodes;
      if kids[0].Element? {
        WalkElementWrites(kids[0]);
      }
    }
  }

  // ---------------------------------------------------------------------------
  // A second walk does nothing

  /** A walked subtree is one the walk would leave as it is. */
  lemma RewroteSettles(n: Node, r: Node)
    requires Rewrote(n, r)
    ensures Rewrote(r, r)
    decreases n, 1
  {
    if n.Element? {
      forall k | k in n.attributes
        ensures Transform(Transform(n.attributes[k])) == Transform(n.attributes[k])
      {
        TransformIdempotent(n.attributes[k]);
      }
      forall i | 0 <= i < |n.children|
        ensures ChildRewrote(r.children[i], r.children[i], !IsSkipped(n.tag))
      {
        ChildRewroteSettles(n.children[i], r.children[i], !IsSkipped(n.tag));
      }
    }
  }

  lemma ChildRewroteSettles(n: Node, r: Node, rewriteText: bool)
    requires ChildRewrote(n, r, rewriteText)
    ensures ChildRewrote(r, r, rewriteText)
    decreases n, 2
  {
    match n
    case Text(v) => TransformIdempotent(v);
    case Other(_) =>
    case Element(_, _, _) => RewroteSettles(n, r);
  }

  /** Walking a walked subtree again changes nothing and writes nothing, so the
      mutations of one walk trigger at most one further walk, which is silent. */
  lemma WalkElementIdempotent(n: Node)
    ensures WalkElement(WalkElement(n).value) == Walked(WalkElement(n).value, [])
  {
    var r := WalkElement(n).value;
    WalkElementMeetsSpec(n);
    RewroteSettles(n, r);
    WalkElementMeetsSpec(r);
    RewroteUnique(r, r, WalkElement(r).value);
    WalkElementWrites(r);
  }

  // ---------------------------------------------------------------------------
  // What a walk never changes

  /** A tree with every attribute value and text erased: its node kinds, tags,
      attribute names and child order. */
  function Skeleton(n: Node): Node
    decreases n
  {
    match n
    case Text(_) => Text("")
    case Other(d) => Other(d)
    case Element(tag, attrs, kids) =>
      Element(tag, map k | k in attrs :: "", seq(|kids|, i requires 0 <= i < |kids| => Skeleton(kids[i])))
  }

  /** The walk never adds, removes or reorders nodes, never renames an element
      and never adds or removes an attribute. */
  lemma {:induction false} RewroteKeepsSkeleton(n: Node, r: Node)
    requires Rewrote(n, r)
    ensures Skeleton(r) == Skeleton(n)
    decreases n, 1
  {
    if n.Element? {
      forall i | 0 <= i < |n.children|
        ensures Skeleton(r.children[i]) == Skeleton(n.children[i])
      {
        ChildRewroteKeepsSkeleton(n.children[i], r.children[i], !IsSkipped(n.tag));
      }
      assert (map k | k in r.attributes :: "") == (map k | k in n.attributes :: "");
    }
  }

  lemma {:induction false} ChildRewroteKeepsSkeleton(n: Node, r: Node, rewriteText: bool)
    requires ChildRewrote(n, r, rewriteText)
    ensures Skeleton(r) == Skeleton(n)
    decreases n, 2
  {
    if n.Element? {
      RewroteKeepsSkeleton(n, r);
    }
  }

  /** The walk keeps the shape of the tree. */
  lemma WalkElementKeepsSkeleton(n: Node)
    ensures Skeleton(WalkElement(n).value) == Skeleton(n)
  {
    WalkElementMeetsSpec(n);
    RewroteKeepsSkeleton(n, WalkElement(n).value);
  }

  /** A `script`, `style` or `textarea` element keeps its attributes and its
      text children, but its child elements are still walked. */
  lemma SkippedElementFrame(n: Node)
    requires n.Element? && IsSkipped(n.tag)
    ensures var r := WalkElement(n).value;
      && r.attributes == n.attributes
      && |r.children| == |n.children|
      && (forall i :: 0 <= i < |n.children| && !n.children[i].Element? ==> r.children[i] == n.children[i])
      && (forall i :: 0 <= i < |n.children| && n.children[i].Element? ==> Rewrote(n.children[i], r.children[i]))
  {
    WalkElementMeetsSpec(n);
    var r := WalkElement(n).value;
    assert r.attributes == n.attributes;
  }

  /** Outside `title`, `alt` and `placeholder`, attributes are never changed;
      those three are rewritten only when present and never created. */
  lemma WalkElementAttributes(n: Node)
    requires n.Element?
    ensures var r := WalkElement(n).value;
      && r.Element? && r.attributes.Keys == n.attributes.Keys
      && (forall k :: k in n.attributes && k !in CheckedAttributes ==> r.attributes[k] == n.attributes[k])
      && (forall k :: k in n.attributes && k in CheckedAttributes && !IsSkipped(n.tag) ==>
            r.attributes[k] == Transform(n.attributes[k]))
  {
    WalkElementMeetsSpec(n);
  }

  /** Walking the result of a walk performs no writes and changes nothing. */
  lemma WalkIdempotent(root: Option<Node>)
    ensures Walk(Walk(root).value) == Walked(Walk(root).value, [])
  {
    if root.Some? && root.value.Element? {
      WalkElementIdempotent(root.value);
    }
  }

  // ---------------------------------------------------------------------------
  // The writes, read off the trees

  /** The attribute writes that turn `before` into `after`: one for each name
      of `names` present in both whose value differs, in the order of `names`. */
  function AttributeChanges(before: map<string, string>, after: map<string, string>, names: seq<string>): seq<Write>
  {
    if |names| == 0 then []
    else
      var name := names[0];
      (if name in before && name in after && before[name] != after[name]
       then [SetAttribute(name, after[name])] else [])
      + AttributeChanges(before, after, names[1..])
  }

  /** The text writes that turn the children `before` into `after`: one for
      each text child whose value differs, in document order. */
  function TextChanges(before: seq<Node>, after: seq<Node>): seq<Write>
  {
    if |before| == 0 || |after| == 0 then []
    else
      (if before[0].Text? && after[0].Text? && before[0].value != after[0].value
       then [SetNodeValue(after[0].value)] else [])
      + TextChanges(before[1..], after[1..])
  }

  /** The writes that turn the tree `before` into `after`, in document order:
      an element's changed `title`, `alt` and `placeholder`, then its changed
      text children, then the changes inside each child element in turn. */
  function Changes(before: Node, after: Node): seq<Write>
    decreases before
  {
    if before.Element? && after.Element? then
      AttributeChanges(before.attributes, after.attributes, CheckedAttributes)
      + TextChanges(before.children, after.children)
      + NestedChanges(before.children, after.children)
    else []
  }

  /** The changes inside the child elements of `before`, child by child. */
  function NestedChanges(before: seq<Node>, after: seq<Node>): seq<Write>
    decreases before
  {
    if |before| == 0 || |after| == 0 then []
    else
      (if before[0].Element? then Changes(before[0], after[0]) else [])
      + NestedChanges(before[1..], after[1..])
  }

  lemma {:induction false} AttributeChangesSame(attrs: map<string, string>, names: seq<string>)
    ensures AttributeChanges(attrs, attrs, names) == []
    decreases |names|
  {
    if |names| > 0 {
      AttributeChangesSame(attrs, names[1..]);
    }
  }

  /** Only the values of the names inspected matter. */
  lemma {:induction false} AttributeChangesFrame(before: map<string, string>, before': map<string, string>,
                                                 after: map<string, string>, names: seq<string>)
    requires forall k :: k in names ==> (k in before <==> k in before') && (k in before ==> before[k] == before'[k])
    ensures AttributeChanges(before, after, names) == AttributeChanges(before', after, names)
    decreases |names|
  {
    if |names| > 0 {
      AttributeChangesFrame(before, before', after, names[1..]);
    }
  }

  /** With distinct names, the attribute step writes exactly the changed
      values, each once, in the order of `names`. */
  lemma {:induction false} RewriteAttributesChanges(attrs: map<string, string>, names: seq<string>)
    requires forall i, j :: 0 <= i < j < |names| ==> names[i] != names[j]
    ensures var r := RewriteAttributes(attrs, names);
      r.writes == AttributeChanges(attrs, r.value, names)
    decreases |names|
  {
    if |names| > 0 {
      var name := names[0];
      var r := RewriteAttributes(attrs, names);
      assert name !in names[1..] by {
        forall j | 0 <= j < |names[1..]| ensures names[1..][j] != name {
          assert names[1..][j] == names[j + 1];
        }
      }
      var u := if name in attrs then RewriteValue(attrs[name]) else None;
      if u.Some? {
        var attrs' := attrs[name := u.value];
        RewriteAttributesChanges(attrs', names[1..]);
        AttributeChangesFrame(attrs, attrs', r.value, names[1..]);
      } else {
        RewriteAttributesChanges(attrs, names[1..]);
      }
    }
  }

  /** Every changed value of an inspected attribute is written. */
  lemma {:induction false} RewriteAttributesComplete(attrs: map<string, string>, names: seq<string>)
    ensures forall k :: k in attrs && k in names && Transform(attrs[k]) != attrs[k] ==>
      SetAttribute(k, Transform(attrs[k])) in RewriteAttributes(attrs, names).writes
    decreases |names|
  {
    if |names| > 0 {
      var name := names[0];
      var u := if name in attrs then RewriteValue(attrs[name]) else None;
      if u.Some? {
        var attrs' := attrs[name := u.value];
        RewriteAttributesComplete(attrs', names[1..]);
        forall k | k in attrs && k in names[1..] && k != name
          ensures attrs'[k] == attrs[k]
        {
        }
      } else {
        RewriteAttributesComplete(attrs, names[1..]);
      }
    }
  }

  /** The writes of a walk are exactly the changes between the subtree before
      and after it: one write per changed value, nothing else, in document
      order. */
  lemma {:induction false} WalkElementChanges(n: Node)
    ensures WalkElement(n).writes == Changes(n, WalkElement(n).value)
    decreases n, 1
  {
    if n.Element? {
      var skip := IsSkipped(n.tag);
      if skip {
        AttributeChangesSame(n.attributes, CheckedAttributes);
      } else {
        RewriteAttributesChanges(n.attributes, CheckedAttributes);
      }
      WalkChildrenChanges(n.children, !skip);
    }
  }

  /** The same for the children of one element. */
  lemma {:induction false} WalkChildrenChanges(kids: seq<Node>, rewriteText: bool)
    ensures var r := WalkChildren(kids, rewriteText);
      r.textWrites == TextChanges(kids, r.nodes) && r.nestedWrites == NestedChanges(kids, r.nodes)
    decreases kids, 2
  {
    if |kids| > 0 {
      WalkChildrenChanges(kids[1..], rewriteText);
      var r := WalkChildren(kids, rewriteText);
      var rest := WalkChildren(kids[1..], rewriteText);
      assert r.nodes[1..] == rest.nodes;
      if kids[0].Element? {
        WalkElementChanges(kids[0]);
      }
    }
  }
}
