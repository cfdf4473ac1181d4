/**
 * The remark plugin that turns GitHub-style alert blockquotes
 * (`> [!NOTE]`, `> [!TIP]`, ...) into callouts: the marker is removed, a
 * title paragraph is put first and the blockquote gets the callout classes.
 *
 * The markdown tree is a heap of `Node` objects, rewritten in place by
 * `TransformAlert` and `Walk`; each is proved against a function on
 * `MdNode` values, and the properties of the rewrite are lemmas about those
 * functions.
 */
module GithubAlerts {
  import opened Wrappers
  import opened Text

  // ---------------------------------------------------------------------------
  // Alert types and the marker
  // ---------------------------------------------------------------------------

  datatype AlertType = Note | Tip | Important | Warning | Caution

  /** The marker's type name as written between `[!` and `]`. */
  function Name(t: AlertType): string {
    match t
    case Note => "NOTE"
    case Tip => "TIP"
    case Important => "IMPORTANT"
    case Warning => "WARNING"
    case Caution => "CAUTION"
  }

  /** `ALERT_TYPES`: the Spanish title shown for each type. */
  function Title(t: AlertType): string {
    match t
    case Note => "Nota"
    case Tip => "Consejo"
    case Important => "Importante"
    case Warning => "Advertencia"
    case Caution => "Peligro"
  }

  function Marker(t: AlertType): string {
    "[!" + Name(t) + "]"
  }

  /** The alert's type and the length of the matched text. */
  datatype AlertMatch = AlertMatch(kind: AlertType, length: nat)

  /** The marker of `t` at the start of `s`, with at most one line feed after it. */
  function MatchType(s: string, t: AlertType): (r: Option<AlertMatch>)
    ensures r.Some? ==> r.value.kind == t && r.value.length <= |s|
  {
    var m := Marker(t);
    if !StartsWith(s, m) then None
    else if |s| > |m| && s[|m|] == '\n' then Some(AlertMatch(t, |m| + 1))
    else Some(AlertMatch(t, |m|))
  }

  /** `value.match(ALERT_RE)`: the alternatives tried in the order of the pattern. */
  function MatchAlert(s: string): (r: Option<AlertMatch>)
    ensures r.Some? ==> r.value.length <= |s|
  {
    var tries := [MatchType(s, Note), MatchType(s, Tip), MatchType(s, Important),
                  MatchType(s, Warning), MatchType(s, Caution)];
    if tries[0].Some? then tries[0]
    else if tries[1].Some? then tries[1]
    else if tries[2].Some? then tries[2]
    else if tries[3].Some? then tries[3]
    else tries[4]
  }

  /**
   * `ALERT_RE` matches exactly when `s` starts with some type's marker; the
   * match removes that marker and one line feed right after it, if any.
   */
  lemma MatchAlertSpec(s: string)
    ensures MatchAlert(s).None? <==> forall t :: !StartsWith(s, Marker(t))
    ensures MatchAlert(s).Some? ==> var m := MatchAlert(s).value; var k := |Marker(m.kind)|;
      StartsWith(s, Marker(m.kind))
      && m.length == (if |s| > k && s[k] == '\n' then k + 1 else k)
  {
    forall t | StartsWith(s, Marker(t)) ensures MatchAlert(s).Some? {
      assert MatchType(s, t).Some?;
    }
  }

  /** A text that does not start with `[` never matches. */
  lemma NoMatchWithoutBracket(s: string)
    requires s == [] || s[0] != '['
    ensures MatchAlert(s) == None
  {
    MatchAlertSpec(s);
    forall t ensures !StartsWith(s, Marker(t)) {
      assert Marker(t)[0] == '[';
    }
  }

  // ---------------------------------------------------------------------------
  // The markdown tree as values
  // ---------------------------------------------------------------------------

  /** `data.hProperties`: the class list and the other HTML properties. */
  datatype HProps = HProps(className: Option<seq<string>>, others: map<string, string>)

  /** A node's `data`: its `hProperties` and the other fields. */
  datatype NodeData = NodeData(hProperties: Option<HProps>, others: map<string, string>)

  /**
   * A markdown node: its `type`, its `value` (for text nodes), its children
   * (empty for a leaf) and its `data`, absent when the node has none.
   */
  datatype MdNode = MdNode(kind: string, value: string, children: seq<MdNode>, data: Option<NodeData>)

  /**
   * Setting `data.hProperties.className`, creating `data` and
   * `hProperties` first when they are absent.
   */
  function WithClasses(d: Option<NodeData>, classes: seq<string>): (r: NodeData)
    ensures r.hProperties.Some? && r.hProperties.value.className == Some(classes)
    ensures d.Some? ==> r.others == d.value.others
    ensures d.Some? && d.value.hProperties.Some? ==> r.hProperties.value.others == d.value.hProperties.value.others
    ensures d.None? ==> r.others == map[] && r.hProperties.value.others == map[]
  {
    var nd := if d.Some? then d.value else NodeData(None, map[]);
    var hp := if nd.hProperties.Some? then nd.hProperties.value else HProps(None, map[]);
    nd.(hProperties := Some(hp.(className := Some(classes))))
  }

  /** The classes a blockquote of type `t` gets. */
  function CalloutClasses(t: AlertType): seq<string> {
    ["callout", "callout-" + Lower(Name(t))]
  }

  const TitleData := NodeData(Some(HProps(Some(["callout-title"]), map[])), map[])

  /** The title paragraph put first in a callout: `## <title>`. */
  function TitleParagraph(t: AlertType): MdNode {
    MdNode("paragraph", "", [MdNode("text", "## " + Title(t), [], None)], Some(TitleData))
  }

  /**
   * The marker at the head of a blockquote: its first child is a
   * paragraph whose first child is a text node that matches `ALERT_RE`.
   */
  function AlertHead(b: MdNode): (r: Option<AlertMatch>)
    ensures r.Some? ==>
      (|b.children| > 0 && b.children[0].kind == "paragraph"
       && |b.children[0].children| > 0 && b.children[0].children[0].kind == "text"
       && r.value.length <= |b.children[0].children[0].value|)
  {
    if |b.children| == 0 || b.children[0].kind != "paragraph" then None
    else
      var p := b.children[0];
      if |p.children| == 0 || p.children[0].kind != "text" then None
      else MatchAlert(p.children[0].value)
  }

  /** Whether the marker's paragraph is dropped: it had one child, now only whitespace. */
  function Emptied(b: MdNode, m: AlertMatch): bool
    requires AlertHead(b) == Some(m)
  {
    |b.children[0].children| == 1 && Trim(Js, b.children[0].children[0].value[m.length..]) == []
  }

  /** The blockquote with the first `len` characters cut off the text at its head. */
  function CutMarkerText(b: MdNode, len: nat): (r: MdNode)
    requires |b.children| > 0 && |b.children[0].children| > 0 && len <= |b.children[0].children[0].value|
  {
    var p := b.children[0];
    var text := p.children[0];
    b.(children := [p.(children := [text.(value := text.value[len..])] + p.children[1..])] + b.children[1..])
  }

  /** `transformAlert` on a value: what the blockquote becomes. */
  function TransformSpec(b: MdNode): MdNode {
    match AlertHead(b)
    case None => b
    case Some(m) =>
      var cut := CutMarkerText(b, m.length);
      var kept := if Emptied(b, m) then cut.children[1..] else cut.children;
      b.(children := [TitleParagraph(m.kind)] + kept, data := Some(WithClasses(b.data, CalloutClasses(m.kind))))
  }

  /** `walk` on a value: blockquote children are transformed, other children walked. */
  function WalkSpec(n: MdNode): (r: MdNode)
    decreases n, 0
  {
    n.(children := seq(|n.children|, i requires 0 <= i < |n.children| => Visit(n.children[i])))
  }

  /** What `walk` does to one child. */
  function Visit(c: MdNode): (r: MdNode)
    decreases c, 1
  {
    if c.kind == "blockquote" then TransformSpec(c) else WalkSpec(c)
  }

  // ---------------------------------------------------------------------------
  // Properties of the rewrite
  // ---------------------------------------------------------------------------

  /** The rewrite of a blockquote that carries a marker, step by step. */
  lemma TransformUnfold(b: MdNode, m: AlertMatch)
    requires AlertHead(b) == Some(m)
    ensures var cut := CutMarkerText(b, m.length);
      TransformSpec(b) == b.(children := [TitleParagraph(m.kind)] + (if Emptied(b, m) then cut.children[1..] else cut.children),
                             data := Some(WithClasses(b.data, CalloutClasses(m.kind))))
  {
  }

  /**
   * Only a blockquote that opens with a paragraph whose first inline is a
   * text starting with a marker is changed; every other one is returned as
   * it was.
   */
  lemma TransformChangesOnlyAlerts(b: MdNode)
    ensures TransformSpec(b) == b <==> AlertHead(b).None?
  {
    if AlertHead(b).Some? {
      var m := AlertHead(b).value;
      TransformTitleFirst(b, m);
      var old0 := b.children[0].children[0].value;
      MatchAlertSpec(old0);
      assert old0[0] == '[' by { assert Marker(m.kind)[0] == '['; }
      var title := TitleParagraph(m.kind);
      assert title.children[0].value[0] == '#';
      assert TransformSpec(b).children[0] != b.children[0];
    }
  }

  /**
   * A transformed blockquote starts with the title paragraph and ends with
   * its old children after the first, unchanged; it has one child more than
   * before, or as many when the marker paragraph was emptied and dropped.
   */
  lemma TransformTitleFirst(b: MdNode, m: AlertMatch)
    requires AlertHead(b) == Some(m)
    ensures TransformSpec(b).kind == b.kind && TransformSpec(b).value == b.value
    ensures TransformSpec(b).children[0] == TitleParagraph(m.kind)
    ensures |TransformSpec(b).children| == |b.children| + (if Emptied(b, m) then 0 else 1)
    ensures TransformSpec(b).children[|TransformSpec(b).children| - (|b.children| - 1)..] == b.children[1..]
  {
    TransformUnfold(b, m);
    var cut := CutMarkerText(b, m.length);
    assert cut.children[1..] == b.children[1..];
  }

  /** The text at the head of an alert starts with the marker, and at most one line feed after it. */
  lemma TransformStripsMarker(b: MdNode, m: AlertMatch)
    requires AlertHead(b) == Some(m)
    ensures var text := b.children[0].children[0].value;
      text[..m.length] in {Marker(m.kind), Marker(m.kind) + "\n"}
  {
    var text := b.children[0].children[0].value;
    MatchAlertSpec(text);
    var k := |Marker(m.kind)|;
    if m.length == k + 1 {
      assert text[..m.length] == text[..k] + [text[k]];
    }
  }

  /**
   * A marker paragraph that is not dropped follows the title, with the rest
   * of the text after the marker and its other children.
   */
  lemma TransformKeepsRest(b: MdNode, m: AlertMatch)
    requires AlertHead(b) == Some(m) && !Emptied(b, m)
    ensures TransformSpec(b).children[1].kind == "paragraph"
    ensures TransformSpec(b).children[1].children[0].value == b.children[0].children[0].value[m.length..]
    ensures TransformSpec(b).children[1].children[1..] == b.children[0].children[1..]
  {
    TransformUnfold(b, m);
  }

  /**
   * The blockquote's class list becomes exactly `callout` and
   * `callout-<type>`; its other `data` and `hProperties` fields are kept.
   */
  lemma TransformSetsClasses(b: MdNode, m: AlertMatch)
    requires AlertHead(b) == Some(m)
    ensures TransformSpec(b).data.Some? && TransformSpec(b).data.value.hProperties.Some?
    ensures TransformSpec(b).data.value.hProperties.value.className == Some(["callout", "callout-" + Lower(Name(m.kind))])
    ensures b.data.Some? ==> TransformSpec(b).data.value.others == b.data.value.others
    ensures b.data.Some? && b.data.value.hProperties.Some? ==>
      TransformSpec(b).data.value.hProperties.value.others == b.data.value.hProperties.value.others
  {
    TransformUnfold(b, m);
  }

  /** The title paragraph does not start with a marker, so a callout is never transformed again. */
  lemma TransformIdempotent(b: MdNode)
    ensures TransformSpec(TransformSpec(b)) == TransformSpec(b)
  {
    var r := TransformSpec(b);
    if AlertHead(b).Some? {
      TransformTitleFirst(b, AlertHead(b).value);
      var title := r.children[0].children[0].value;
      assert title[0] == '#';
      NoMatchWithoutBracket(title);
      assert AlertHead(r).None?;
    }
  }

  /** `walk` keeps the node's own fields and the number of its children. */
  lemma WalkKeepsNode(n: MdNode)
    ensures var r := WalkSpec(n);
      r.kind == n.kind && r.value == n.value && r.data == n.data && |r.children| == |n.children|
  {
  }

  /** Walking twice is walking once. */
  lemma {:induction false} WalkIdempotent(n: MdNode)
    ensures WalkSpec(WalkSpec(n)) == WalkSpec(n)
    decreases n, 0
  {
    var r := WalkSpec(n);
    var rr := WalkSpec(r);
    forall i | 0 <= i < |n.children| ensures rr.children[i] == r.children[i] {
      VisitIdempotent(n.children[i]);
    }
  }

  lemma {:induction false} VisitIdempotent(c: MdNode)
    ensures Visit(Visit(c)) == Visit(c)
    decreases c, 1
  {
    if c.kind == "blockquote" {
      TransformIdempotent(c);
    } else {
      WalkIdempotent(c);
    }
  }

  /**
   * `walk` stops at a blockquote: the children of a blockquote below the
   * root, nested blockquotes included, keep everything but the marker
   * paragraph.
   */
  lemma WalkStopsAtBlockquote(n: MdNode, i: nat)
    requires i < |n.children| && n.children[i].kind == "blockquote" && |n.children[i].children| > 0
    ensures var b := n.children[i]; var r := WalkSpec(n).children[i];
      |r.children| >= |b.children| && r.children[|r.children| - (|b.children| - 1)..] == b.children[1..]
  {
    var b := n.children[i];
    if AlertHead(b).Some? {
      TransformTitleFirst(b, AlertHead(b).value);
    }
  }

  /** A tree without blockquotes is left as it is. */
  predicate NoBlockquote(n: MdNode)
    decreases n
  {
    forall i :: 0 <= i < |n.children| ==> n.children[i].kind != "blockquote" && NoBlockquote(n.children[i])
  }

  lemma {:induction false} WalkWithoutBlockquotes(n: MdNode)
    requires NoBlockquote(n)
    ensures WalkSpec(n) == n
    decreases n
  {
    forall i | 0 <= i < |n.children| ensures WalkSpec(n).children[i] == n.children[i] {
      WalkWithoutBlockquotes(n.children[i]);
    }
  }

  // ---------------------------------------------------------------------------
  // The tree in the heap, rewritten in place
  // ---------------------------------------------------------------------------

  /**
   * A markdown node object. `model` is the value the node and its
   * descendants stand for; `Repr` is the node and every object below it.
   */
  class Node {
    var kind: string
    var value: string
    var children: seq<Node>
    var data: Option<NodeData>
    ghost var model: MdNode
    ghost var Repr: set<object>

    /** The children form a tree below this node and `model` mirrors the fields. */
    ghost predicate Valid()
      reads this, Repr
      decreases Repr
    {
      && this in Repr
      && model.kind == kind && model.value == value && model.data == data
      && |model.children| == |children|
      && (forall i :: 0 <= i < |children| ==>
            && children[i] in Repr && children[i].Repr <= Repr && this !in children[i].Repr
            && children[i].Valid() && model.children[i] == children[i].model)
      && (forall i, j :: 0 <= i < j < |children| ==> children[i].Repr !! children[j].Repr)
    }

    /** A node without children. */
    constructor Leaf(kind: string, value: string, data: Option<NodeData>)
      ensures Valid() && fresh(Repr) && model == MdNode(kind, value, [], data)
    {
      this.kind, this.value, this.children, this.data := kind, value, [], data;
      model := MdNode(kind, value, [], data);
      Repr := {this};
    }

    /** `node.value = v`. */
    method SetValue(v: string)
      requires Valid()
      modifies this
      ensures Valid() && Repr == old(Repr) && children == old(children) && kind == old(kind)
      ensures model == old(model).(value := v)
    {
      value := v;
      model := model.(value := v);
    }

    /** Cuts the first `len` characters off the value of the first child. */
    method CutFirstChildValue(len: nat)
      requires Valid() && |children| > 0 && len <= |children[0].value|
      modifies this, children[0]
      ensures Valid() && Repr == old(Repr) && children == old(children) && kind == old(kind)
      ensures model == old(model).(children :=
        [old(model.children[0]).(value := old(children[0].value)[len..])] + old(model.children[1..]))
    {
      var first := children[0];
      first.SetValue(first.value[len..]);
      model := model.(children := [first.model] + model.children[1..]);
    }

    /** Cuts the first `len` characters off the value of the first child of the first child. */
    method CutFirstGrandchildValue(len: nat)
      requires Valid() && |children| > 0 && |children[0].children| > 0
      requires |model.children| > 0 && |model.children[0].children| > 0
      requires len <= |model.children[0].children[0].value|
      modifies this, children[0], children[0].children[0]
      ensures Valid() && Repr == old(Repr) && children == old(children) && kind == old(kind)
      ensures children[0].children == old(children[0].children)
      ensures model == CutMarkerText(old(model), len)
    {
      var first := children[0];
      assert first.Valid() && first.model == model.children[0];
      first.CutFirstChildValue(len);
      model := model.(children := [first.model] + model.children[1..]);
    }

    /** `node.children.shift()`. */
    method Shift()
      requires Valid() && |children| > 0
      modifies this
      ensures Valid() && Repr == old(Repr) && children == old(children[1..]) && kind == old(kind)
      ensures model == old(model).(children := old(model.children[1..]))
    {
      children := children[1..];
      model := model.(children := model.children[1..]);
    }

    /** `node.children.unshift(c)` for a node `c` that shares nothing with this one. */
    method Unshift(c: Node)
      requires Valid() && c.Valid() && Repr !! c.Repr
      modifies this
      ensures Valid() && Repr == old(Repr) + c.Repr && children == [c] + old(children) && kind == old(kind)
      ensures model == old(model).(children := [c.model] + old(model.children))
    {
      children := [c] + children;
      Repr := Repr + c.Repr;
      model := model.(children := [c.model] + model.children);
    }

    /** `node.data.hProperties.className = classes`, creating `data` and `hProperties` as needed. */
    method SetClasses(classes: seq<string>)
      requires Valid()
      modifies this
      ensures Valid() && Repr == old(Repr) && children == old(children) && kind == old(kind)
      ensures model == old(model).(data := Some(WithClasses(old(data), classes)))
    {
      data := Some(WithClasses(data, classes));
      model := model.(data := data);
    }
  }

  /** The title paragraph, as two new node objects. */
  method NewTitleParagraph(t: AlertType) returns (p: Node)
    ensures p.Valid() && fresh(p.Repr) && p.model == TitleParagraph(t)
  {
    var text := new Node.Leaf("text", "## " + Title(t), None);
    p := new Node.Leaf("paragraph", "", Some(TitleData));
    p.children := [text];
    p.Repr := p.Repr + text.Repr;
    p.model := p.model.(children := [text.model]);
  }

  /** `transformAlert`: rewrites a blockquote in place. */
  method TransformAlert(node: Node)
    requires node.Valid()
    modifies node.Repr
    ensures node.Valid() && node.model == TransformSpec(old(node.model))
    ensures fresh(node.Repr - old(node.Repr))
  {
    ghost var b := node.model;
    if |node.children| == 0 { return; }
    var firstChild := node.children[0];
    assert firstChild.Valid() && b.children[0] == firstChild.model;
    if firstChild.kind != "paragraph" { return; }
    if |firstChild.children| == 0 { return; }
    var firstInline := firstChild.children[0];
    assert firstInline.Valid() && b.children[0].children[0] == firstInline.model;
    if firstInline.kind != "text" { return; }
    var found := MatchAlert(firstInline.value);
    if found.None? { return; }
    assert AlertHead(b) == found;
    ApplyAlert(node, found.value);
  }

  /** The rewrite of a blockquote whose first paragraph starts with the marker of `m`. */
  method ApplyAlert(node: Node, m: AlertMatch)
    requires node.Valid() && AlertHead(node.model) == Some(m)
    modifies node.Repr
    ensures node.Valid() && node.model == TransformSpec(old(node.model))
    ensures fresh(node.Repr - old(node.Repr))
  {
    ghost var b := node.model;
    TransformUnfold(b, m);
    StripMarker(node, m);
    ghost var kept := node.model.children;
    var heading := NewTitleParagraph(m.kind);
    node.Unshift(heading);
    node.SetClasses(["callout", "callout-" + Lower(Name(m.kind))]);
    assert node.model.children == [TitleParagraph(m.kind)] + kept;
  }

  /**
   * Cuts the marker off the first text of the blockquote and drops the
   * first paragraph when nothing but whitespace is left of it.
   */
  method StripMarker(node: Node, m: AlertMatch)
    requires node.Valid() && AlertHead(node.model) == Some(m)
    modifies node.Repr
    ensures node.Valid() && node.Repr == old(node.Repr)
    ensures var cut := CutMarkerText(old(node.model), m.length);
      node.model == cut.(children := if Emptied(old(node.model), m) then cut.children[1..] else cut.children)
  {
    ghost var b := node.model;
    var firstChild := node.children[0];
    assert firstChild.Valid() && b.children[0] == firstChild.model;
    var firstInline := firstChild.children[0];
    assert firstInline.Valid() && b.children[0].children[0] == firstInline.model;
    ghost var cut := CutMarkerText(b, m.length);
    assert firstInline in firstChild.Repr && firstChild.Repr <= node.Repr;

    node.CutFirstGrandchildValue(m.length);
    assert node.children[0] == firstChild && firstChild.Valid() && firstChild.model == cut.children[0];
    assert firstChild.children[0] == firstInline && firstInline.model == cut.children[0].children[0];
    if |firstChild.children| == 1 && Trim(Js, firstInline.value) == [] {
      assert Emptied(b, m);
      node.Shift();
    } else {
      assert !Emptied(b, m);
    }
  }

  /**
   * `walk`: every blockquote child is transformed and every other child
   * walked in turn; the loop never descends into a blockquote.
   */
  method Walk(node: Node)
    requires node.Valid()
    modifies node.Repr
    ensures node.Valid() && node.model == WalkSpec(old(node.model))
    ensures fresh(node.Repr - old(node.Repr))
    decreases node.model, 2
  {
    ghost var before := node.model.children;
    var i := 0;
    while i < |node.children|
      invariant node.Valid() && fresh(node.Repr - old(node.Repr))
      invariant 0 <= i <= |node.children| == |before|
      invariant node.model == old(node.model).(children := node.model.children)
      invariant forall k :: 0 <= k < i ==> node.model.children[k] == Visit(before[k])
      invariant forall k :: i <= k < |before| ==> node.model.children[k] == before[k]
    {
      VisitChild(node, i, old(node.model));
      i := i + 1;
    }
    assert node.model.children == WalkSpec(old(node.model)).children;
  }

  /**
   * One step of the `walk` loop: visits the child at `i` and leaves the
   * others alone. `start` is the node as the loop found it, whose child `i`
   * has not been visited yet.
   */
  method VisitChild(node: Node, i: nat, ghost start: MdNode)
    requires node.Valid() && i < |node.children|
    requires i < |start.children| && node.model.children[i] == start.children[i]
    modifies node.Repr
    ensures node.Valid() && fresh(node.Repr - old(node.Repr))
    ensures |node.children| == old(|node.children|)
    ensures node.model == old(node.model).(children := old(node.model.children)[i := Visit(old(node.model.children[i]))])
    decreases start, 1
  {
    var child := node.children[i];
    assert child.Valid() && child.model == node.model.children[i];
    VisitNode(child);
    node.Repr := node.Repr + child.Repr;
    node.model := node.model.(children := node.model.children[i := child.model]);
  }

  /** What the `walk` loop does with one child: transform a blockquote, walk anything else. */
  method VisitNode(child: Node)
    requires child.Valid()
    modifies child.Repr
    ensures child.Valid() && child.model == Visit(old(child.model))
    ensures fresh(child.Repr - old(child.Repr))
    decreases child.model, 3
  {
    if child.kind == "blockquote" {
      TransformAlert(child);
    } else {
      Walk(child);
    }
  }
}
