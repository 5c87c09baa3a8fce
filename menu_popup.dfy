/**
  Editor/Utils/ContextGenericMenuPopup.cs: the popup menu that turns item paths such as
  "Git/Stage/All" into a tree of sub-menus.  Only the tree building is modelled: the drawing,
  hovering and animation code is not.  A `GUIContent` is a value of text, image and tooltip
  (a `null` text is the empty string); textures are opaque names; the two delegate types and the
  user data are opaque numbers.  Each element carries a ghost `path`: the texts of the sub-menus
  above it followed by its own text, which is how the menu shows it.
 */
module MenuPopup {
  import opened Wrappers
  import opened Text

  datatype Texture = Texture(name: string)

  /** A `GUIContent`. */
  datatype Content = Content(text: string, image: Option<Texture>, tooltip: string)

  /** The callback of an element: none, a `MenuFunction`, or a `MenuFunction2` with its data. */
  datatype Action = NoAction | Function(id: nat) | FunctionWithData(id: nat, data: nat)

  /** The non-empty `'/'`-separated segments of an item text. */
  function Segments(text: string): (r: seq<string>)
    ensures forall i :: 0 <= i < |r| ==> r[i] != []
  {
    SplitNonEmpty(text, '/')
  }

  /** `Element`: a menu entry; `children` is `null` (here `None`) for an item and a list for a sub-menu. */
  class Element {
    var parent: Element?
    const content: Content
    const on: bool
    const action: Action
    const isSeparator: bool
    const isDisabled: bool
    var children: Option<seq<Element>>
    ghost var path: seq<string>

    /** A new element without a parent; a sub-menu starts with an empty list of children. */
    constructor (content: Content, on: bool, action: Action, isSeparator: bool, isDisabled: bool, subMenu: bool)
      ensures this.content == content && this.on == on && this.action == action
      ensures this.isSeparator == isSeparator && this.isDisabled == isDisabled
      ensures parent == null && children == (if subMenu then Some([]) else None) && path == []
    {
      this.content := content;
      this.on := on;
      this.action := action;
      this.isSeparator := isSeparator;
      this.isDisabled := isDisabled;
      parent := null;
      children := if subMenu then Some([]) else None;
      path := [];
    }

    /** `IsParent`: a sub-menu with at least one child. */
    predicate IsParent()
      reads this
    {
      children.Some? && |children.value| > 0
    }
  }

  /** `FirstOrDefault(e => e.Content.text == text)`. */
  function FirstWithText(list: seq<Element>, text: string): (r: Element?)
    ensures r == null <==> forall e :: e in list ==> e.content.text != text
    ensures r != null ==> exists i ::
      (&& 0 <= i < |list| && list[i] == r && r.content.text == text
       && forall j :: 0 <= j < i ==> list[j].content.text != text)
  {
    if list == [] then null
    else if list[0].content.text == text then list[0]
    else
      var r := FirstWithText(list[1..], text);
      assert forall e :: e in list ==> e == list[0] || e in list[1..];
      if r != null then
        assert exists i ::
          (&& 0 <= i < |list| - 1 && list[1..][i] == r && r.content.text == text
           && forall j :: 0 <= j < i ==> list[1..][j].content.text != text);
        var i :| 0 <= i < |list| - 1 && list[1..][i] == r && r.content.text == text
          && forall j :: 0 <= j < i ==> list[1..][j].content.text != text;
        assert list[i + 1] == r && forall j :: 0 <= j < i + 1 ==> list[j].content.text != text;
        r
      else r
  }

  /** One more element of a prefix. */
  lemma PrefixStep(s: seq<string>, i: nat)
    requires i < |s|
    ensures s[..i + 1] == s[..i] + [s[i]]
  {
  }

  /** The children of each entry of a menu at some moment: the menu as a caller saw it. */
  type Snapshot = map<Element, Option<seq<Element>>>

  /** Where an item goes on a menu, by the walk of `FindOrBuildTree` through first matches: to
      the top level when its text has one segment or the walk meets an item (`TopLevel`), into the
      existing sub-menu for the last segment but one (`Reached`), or into new sub-menus from the
      first segment, `level`, that no entry under `owner` has (`Missing`; the top level when
      `owner` is `null`). */
  datatype Descent = TopLevel | Reached(menu: Element) | Missing(level: nat, owner: Element?)

  /** The walk of `FindOrBuildTree` from segment `i` under `owner` on the menu with top level
      `top` and children `kids`: each step takes the first entry with the segment's text.  An
      entry the snapshot does not list counts as an item; a valid menu has none. */
  function Walk(kids: Snapshot, top: seq<Element>, owner: Element?, segs: seq<string>, i: nat): (d: Descent)
    requires i < |segs| - 1
    ensures d.Missing? ==> i <= d.level < |segs| - 1
    ensures d.Reached? ==> d.menu in kids && kids[d.menu].Some?
    decreases |segs| - i
  {
    var list := if owner == null then top else if owner in kids && kids[owner].Some? then kids[owner].value else [];
    var f := FirstWithText(list, segs[i]);
    if f == null then Missing(i, owner)
    else if f !in kids || kids[f].None? then TopLevel
    else if i == |segs| - 2 then Reached(f)
    else Walk(kids, top, f, segs, i + 1)
  }

  /** Where an item with the segments `segs` goes on the menu `kids`, `top`. */
  function Destination(kids: Snapshot, top: seq<Element>, segs: seq<string>): (d: Descent)
    ensures d.Missing? ==> d.level < |segs| - 1
  {
    if |segs| <= 1 then TopLevel else Walk(kids, top, null, segs, 0)
  }

  /** `after` is `before` with one element appended that was not in `oldRepr`. */
  ghost predicate AppendedFresh(before: seq<Element>, after: seq<Element>, oldRepr: set<Element>)
  {
    |after| == |before| + 1 && after[..|before|] == before && after[|before|] !in oldRepr
  }

  /** A sub-menu as `FindOrBuildTree` creates it for an item with the image `image`: that image,
      an empty tooltip, and the defaults of a new `Element` (not `on`, no callback, neither a
      separator nor disabled). */
  ghost predicate CreatedMenu(x: Element, image: Option<Texture>)
  {
    && x.content.image == image && x.content.tooltip == ""
    && !x.on && x.action == NoAction && !x.isSeparator && !x.isDisabled
  }

  /** Every entry of `menu` that is neither in the snapshot `kids` nor one of `items` is a
      sub-menu made as `CreatedMenu` says. */
  ghost predicate AllCreated(menu: set<Element>, kids: Snapshot, items: set<Element>, image: Option<Texture>)
  {
    forall x {:trigger CreatedMenu(x, image)} :: x in menu && x !in kids && x !in items ==> CreatedMenu(x, image)
  }

  /** No entry of the snapshot other than `t` has had its children changed since. */
  ghost predicate Untouched(kids: Snapshot, t: Element?)
    reads kids.Keys
  {
    forall x :: x in kids && x != t ==> x.children == kids[x]
  }

  class ContextGenericMenuPopup {
    /** `elements`: the top-level entries, in the order they were added. */
    var elements: seq<Element>
    /** Every element of the menu, at any depth. */
    ghost var Repr: set<Element>

    /** Top-level entries have no parent and their own text as path; every child of a sub-menu
        is in the menu, links back to the sub-menu, and extends its path by its own text; and
        every entry is reachable: one without a parent is at the top level, one with a parent is
        among its children. */
    ghost predicate Valid()
      reads this, Repr
    {
      && (forall e {:trigger e in elements} :: e in elements ==> e in Repr && e.parent == null && e.path == [e.content.text])
      && (forall e, c {:trigger c in e.children.value} :: e in Repr && e.children.Some? && c in e.children.value ==>
            c in Repr && c.parent == e && c.path == e.path + [c.content.text])
      && (forall e {:trigger e.parent} :: e in Repr ==>
            if e.parent == null then e in elements
            else e.parent in Repr && e.parent.children.Some? && e in e.parent.children.value)
    }

    /** The constructor: an empty menu.  The overlay and animation services it is handed are only
        used for drawing. */
    constructor ()
      ensures Valid() && elements == [] && Repr == {}
    {
      elements := [];
      Repr := {};
    }

    /** The children of every entry of the menu as it stands. */
    ghost function Kids(): (kids: Snapshot)
      reads this, Repr
      ensures kids.Keys == Repr && forall x :: x in Repr ==> kids[x] == x.children
    {
      map x | x in Repr :: x.children
    }

    /** What each outcome of the walk means on a valid menu: `TopLevel` when an item's path is a
        proper prefix of the segments, `Reached` at a sub-menu whose path is every segment but the
        last, and `Missing` at a level whose prefix is the path of the owner that lacks the next
        segment. */
    lemma {:induction false} WalkMeaning(owner: Element?, segs: seq<string>, i: nat)
      requires Valid() && i < |segs| - 1
      requires owner == null <==> i == 0
      requires owner != null ==> owner in Repr && owner.children.Some? && owner.path == segs[..i]
      ensures var d := Walk(Kids(), elements, owner, segs, i);
        && (d.TopLevel? ==>
              exists e :: e in Repr && e.children.None? && i < |e.path| < |segs| && e.path == segs[..|e.path|])
        && (d.Reached? ==> d.menu in Repr && d.menu.children.Some? && d.menu.path == segs[..|segs| - 1])
        && (d.Missing? ==>
              && i <= d.level < |segs| - 1 && (d.owner == null <==> d.level == 0)
              && (d.owner != null ==> d.owner in Repr && d.owner.children.Some? && d.owner.path == segs[..d.level]
                                      && FirstWithText(d.owner.children.value, segs[d.level]) == null)
              && (d.owner == null ==> FirstWithText(elements, segs[0]) == null))
      decreases |segs| - i
    {
      var list := if owner == null then elements else owner.children.value;
      var f := FirstWithText(list, segs[i]);
      if f != null {
        PrefixStep(segs, i);
        assert f in list;
        assert f in Repr && f.path == segs[..i + 1];
        if f.children.Some? && i < |segs| - 2 {
          WalkMeaning(f, segs, i + 1);
        }
      }
    }

    /** What `FindOrBuildTree` leaves behind for the segments `segs` and the image `image`, by
        where the walk `d` on the menu it started from (`kids`, `top`) ended: nothing changed for
        `TopLevel` and `Reached`; for `Missing`, the chain of new sub-menus past `d.level`, whose
        last, `parent`, still has no children. */
    ghost predicate Grew(kids: Snapshot, top: seq<Element>, segs: seq<string>, image: Option<Texture>,
                         d: Descent, parent: Element?)
      reads this, Repr, kids.Keys
    {
      match d
      case TopLevel => parent == null && Repr == kids.Keys && elements == top && Untouched(kids, null)
      case Reached(m) => parent == m && Repr == kids.Keys && elements == top && Untouched(kids, null)
      case Missing(k, owner) =>
        parent != null && Chain(kids, top, segs, image, k, owner, parent, {}) && parent.children == Some([])
    }

    /** What the menu `kids`, `top` gained for the segments `segs` missing from `level` on: one new
        sub-menu per level past `level` down to `last`, each made as `CreatedMenu` says, plus the
        new items `items`; the first new sub-menu (see `FirstNew`) hangs under `owner`, the only
        entry of the old menu whose children change, and every new entry lies past `level`.  With
        the links of `Valid`, the new sub-menus are the chain from the first of them down to
        `last`. */
    ghost predicate Chain(kids: Snapshot, top: seq<Element>, segs: seq<string>, image: Option<Texture>,
                          level: nat, owner: Element?, last: Element, items: set<Element>)
      reads this, Repr, kids.Keys
    {
      && last in Repr && last !in kids && kids.Keys <= Repr && Untouched(kids, owner)
      && |Repr| == |kids.Keys| + |last.path| - level + |items|
      && (forall x :: x in Repr && x !in kids ==> level < |x.path|)
      && AllCreated(Repr, kids, items, image)
      && FirstNew(kids, top, segs, image, level, owner)
    }

    /** The first new sub-menu past the missing `level`: appended to the top level when `owner`
        is `null`, to the children of `owner` otherwise, with the segment at `level` as its text
        and the item's image; the top level is unchanged in the second case. */
    ghost predicate FirstNew(kids: Snapshot, top: seq<Element>, segs: seq<string>, image: Option<Texture>,
                             level: nat, owner: Element?)
      reads this, Repr, kids.Keys
    {
      && level < |segs| - 1
      && (owner == null ==>
            && AppendedFresh(top, elements, kids.Keys)
            && elements[|top|].content == Content(segs[level], image, ""))
      && (owner != null ==>
            && elements == top && owner in kids && kids[owner].Some? && owner.children.Some?
            && AppendedFresh(kids[owner].value, owner.children.value, kids.Keys)
            && owner.children.value[|kids[owner].value|].content == Content(segs[level], image, ""))
    }

    /** `FindOrBuildTree`: the sub-menu an item with this text goes into, with the item's own
        content (its last segment, image and tooltip).  It walks the segments before the last
        through the first entry with each text, reusing the sub-menus it finds and creating the
        missing ones; no sub-menu (`null`) and the content unchanged when the text has at most one
        segment or the walk meets an item.  Sub-menus created before such an item is met stay in
        the menu. */
    method FindOrBuildTree(content: Content) returns (parent: Element?, newContent: Content)
      requires Valid()
      modifies this, Repr`children
      ensures Valid() && old(Repr) <= Repr && fresh(Repr - old(Repr))
      ensures Grew(old(Kids()), old(elements), Segments(content.text), content.image,
                   Destination(old(Kids()), old(elements), Segments(content.text)), parent)
      ensures parent == null ==> newContent == content
      ensures var d := Destination(old(Kids()), old(elements), Segments(content.text));
        d.Missing? ==> |Repr| == |old(Repr)| + |Segments(content.text)| - 1 - d.level
      ensures parent != null ==> var segs := Segments(content.text);
        && |segs| > 1 && parent in Repr && parent.children.Some? && parent.path == segs[..|segs| - 1]
        && newContent == Content(segs[|segs| - 1], content.image, content.tooltip)
    {
      parent := null;
      newContent := content;
      if content.text == [] {
        return;
      }
      var segs := Segments(content.text);
      if |segs| > 1 {
        var lastParent := BuildPath(segs, content.image);
        if lastParent != null {
          newContent := Content(segs[|segs| - 1], content.image, content.tooltip);
          parent := lastParent;
        }
      }
    }

    /** The part of `FindOrBuildTree` for a text of several segments: the first step at the top
        level, then the loop over the segments between the first and the last. */
    method BuildPath(segs: seq<string>, image: Option<Texture>) returns (lastParent: Element?)
      requires Valid() && |segs| > 1
      modifies this, Repr`children
      ensures Valid() && old(Repr) <= Repr && fresh(Repr - old(Repr))
      ensures Grew(old(Kids()), old(elements), segs, image, Walk(old(Kids()), old(elements), null, segs, 0), lastParent)
      ensures lastParent != null ==>
        lastParent in Repr && lastParent.children.Some? && lastParent.path == segs[..|segs| - 1]
    {
      ghost var kids, top := Kids(), elements;
      ghost var d := Walk(kids, top, null, segs, 0);
      lastParent := Begin(kids, top, d, segs, image);
      if lastParent != null {
        lastParent := Loop(kids, top, d, segs, lastParent, image);
      }
    }

    /** The loop of `FindOrBuildTree`, from the sub-menu for the first segment. */
    method Loop(ghost kids: Snapshot, ghost top: seq<Element>, ghost d: Descent, segs: seq<string>,
                first: Element, image: Option<Texture>) returns (lastParent: Element?)
      requires Valid() && |segs| > 1 && kids.Keys <= Repr
      requires first in Repr && first.children.Some? && first.path == segs[..1] && Along(kids, top, segs, image, d, 1, first)
      modifies this`Repr, Repr`children
      ensures Valid() && old(Repr) <= Repr && fresh(Repr - old(Repr))
      ensures Grew(kids, top, segs, image, d, lastParent)
      ensures lastParent != null ==>
        lastParent in Repr && lastParent.children.Some? && lastParent.path == segs[..|segs| - 1]
    {
      lastParent := first;
      for i := 1 to |segs| - 1
        invariant Valid() && kids.Keys <= Repr && old(Repr) <= Repr && fresh(Repr - old(Repr))
        invariant lastParent in Repr && lastParent.children.Some? && lastParent.path == segs[..i]
        invariant Along(kids, top, segs, image, d, i, lastParent)
      {
        lastParent := Advance(kids, top, d, segs, i, lastParent, image);
        if lastParent == null {
          return;
        }
      }
      AlongDone(kids, top, segs, image, d, lastParent);
    }

    /** Past the last segment but one, the invariant of the loop is what `Grew` says. */
    lemma AlongDone(kids: Snapshot, top: seq<Element>, segs: seq<string>, image: Option<Texture>, d: Descent,
                    lastParent: Element)
      requires |segs| > 1 && Along(kids, top, segs, image, d, |segs| - 1, lastParent)
      ensures Grew(kids, top, segs, image, d, lastParent)
    {
    }

    /** The first step of `FindOrBuildTree` with the invariant of its loop at the second segment:
        `null` exactly when the walk is `TopLevel`, with nothing changed. */
    method Begin(ghost kids: Snapshot, ghost top: seq<Element>, ghost d: Descent, segs: seq<string>,
                 image: Option<Texture>) returns (first: Element?)
      requires Valid() && |segs| > 1 && kids == Kids() && top == elements && d == Walk(kids, top, null, segs, 0)
      modifies this
      ensures Valid() && kids.Keys <= Repr && fresh(Repr - old(Repr))
      ensures first == null ==> d.TopLevel? && Grew(kids, top, segs, image, d, null)
      ensures first != null ==>
        first in Repr && first.children.Some? && first.path == segs[..1] && Along(kids, top, segs, image, d, 1, first)
    {
      assert [segs[0]] == segs[..1];
      first := TopLevelMenu(segs[0], image);
    }

    /** The invariant of the loop of `FindOrBuildTree` at segment `i`, with `lastParent` the
        sub-menu for the segments before it: while the walk follows the old menu, nothing has
        changed and the rest of the walk from `lastParent` is the whole walk `d`; once it has left
        it, `d` is `Missing` above `i` and the chain built so far ends at `lastParent`. */
    ghost predicate Along(kids: Snapshot, top: seq<Element>, segs: seq<string>, image: Option<Texture>, d: Descent,
                          i: nat, lastParent: Element)
      reads this, Repr, kids.Keys
    {
      && (lastParent in kids ==> Following(kids, top, segs, d, i, lastParent))
      && (lastParent !in kids ==>
            && d.Missing? && d.level < i
            && Chain(kids, top, segs, image, d.level, d.owner, lastParent, {})
            && lastParent.children == Some([]))
    }

    /** The part of `Along` while the walk follows the old menu. */
    ghost predicate Following(kids: Snapshot, top: seq<Element>, segs: seq<string>, d: Descent, i: nat,
                              lastParent: Element)
      reads this, kids.Keys
    {
      && Repr == kids.Keys && elements == top && Untouched(kids, null)
      && (if i < |segs| - 1 then Walk(kids, top, lastParent, segs, i) == d else d == Reached(lastParent))
    }

    /** One pass of the loop of `FindOrBuildTree`, with the invariant it keeps: the first child
        of `lastParent` with the segment's text when it is a sub-menu, `null` when it is an item
        (exactly when the walk is `TopLevel`, with nothing changed), and a new sub-menu when
        there is none (`AdvanceMissing`). */
    method Advance(ghost kids: Snapshot, ghost top: seq<Element>, ghost d: Descent, segs: seq<string>, i: nat,
                   lastParent: Element, image: Option<Texture>) returns (next: Element?)
      requires Valid() && kids.Keys <= Repr && 1 <= i < |segs| - 1
      requires lastParent in Repr && lastParent.children.Some? && lastParent.path == segs[..i]
      requires Along(kids, top, segs, image, d, i, lastParent)
      modifies this`Repr, lastParent`children
      ensures Valid() && old(Repr) <= Repr && fresh(Repr - old(Repr))
      ensures next == null ==> d == TopLevel && Repr == kids.Keys && elements == top && Untouched(kids, null)
      ensures next != null ==>
        next in Repr && next.children.Some? && next.path == segs[..i + 1] && Along(kids, top, segs, image, d, i + 1, next)
    {
      next := FirstWithText(lastParent.children.value, segs[i]);
      if next == null {
        next := AdvanceMissing(kids, top, d, segs, i, lastParent, image);
      } else {
        AlongFound(kids, top, segs, image, d, i, lastParent, next);
        if next.children.None? {
          return null;
        }
      }
    }

    /** A pass of the loop that finds a child with the segment's text changes nothing: the walk
        still follows the old menu, and ends there as `TopLevel` when the child is an item. */
    lemma AlongFound(kids: Snapshot, top: seq<Element>, segs: seq<string>, image: Option<Texture>, d: Descent,
                     i: nat, lastParent: Element, next: Element)
      requires Valid() && kids.Keys <= Repr && 1 <= i < |segs| - 1
      requires lastParent in Repr && lastParent.children.Some? && lastParent.path == segs[..i]
      requires lastParent in kids ==> Following(kids, top, segs, d, i, lastParent)
      requires lastParent !in kids ==> lastParent.children == Some([])
      requires FirstWithText(lastParent.children.value, segs[i]) == next
      ensures lastParent in kids && next in kids && next.path == segs[..i + 1]
      ensures next.children.None? ==> d == TopLevel && Repr == kids.Keys && elements == top && Untouched(kids, null)
      ensures next.children.Some? ==> Along(kids, top, segs, image, d, i + 1, next)
    {
      PrefixStep(segs, i);
      assert next in lastParent.children.value;
      assert lastParent.children != Some([]);
      assert lastParent in kids;
      assert Repr == kids.Keys && Untouched(kids, null);
      assert kids[lastParent] == lastParent.children && next in kids && kids[next] == next.children;
      assert d == Walk(kids, top, lastParent, segs, i);
    }

    /** `Advance` when no child of `lastParent` has the segment's text: a new sub-menu, where the
        walk leaves the old menu when `lastParent` was in it, and the next link of the chain when
        `lastParent` was created by an earlier pass. */
    method AdvanceMissing(ghost kids: Snapshot, ghost top: seq<Element>, ghost d: Descent, segs: seq<string>, i: nat,
                          lastParent: Element, image: Option<Texture>) returns (next: Element)
      requires Valid() && kids.Keys <= Repr && 1 <= i < |segs| - 1
      requires lastParent in Repr && lastParent.children.Some? && lastParent.path == segs[..i]
      requires FirstWithText(lastParent.children.value, segs[i]) == null
      requires Along(kids, top, segs, image, d, i, lastParent)
      modifies this`Repr, lastParent`children
      ensures Valid() && old(Repr) <= Repr && fresh(Repr - old(Repr))
      ensures next in Repr && next.children.Some? && next.path == segs[..i + 1] && Along(kids, top, segs, image, d, i + 1, next)
    {
      PrefixStep(segs, i);
      ghost var before := lastParent.children.value;
      next := NewSubMenu(lastParent, segs[i], image);
      if lastParent in kids {
        assert kids[lastParent] == Some(before);
        assert d == Walk(kids, top, lastParent, segs, i);
      } else {
        assert d.owner != lastParent;
      }
    }

    /** The first step of `FindOrBuildTree`: the first top-level entry with the text when it is a
        sub-menu, `null` when it is an item, and a new empty top-level sub-menu appended to
        `elements` when there is none. */
    method TopLevelMenu(text: string, image: Option<Texture>) returns (first: Element?)
      requires Valid()
      modifies this
      ensures Valid() && old(Repr) <= Repr
      ensures var f := FirstWithText(old(elements), text);
        && (f != null && f.children.Some? ==> first == f && Repr == old(Repr) && elements == old(elements))
        && (f != null && f.children.None? ==> first == null && Repr == old(Repr) && elements == old(elements))
        && (f == null ==>
              && first != null && fresh(first) && Repr == old(Repr) + {first} && elements == old(elements) + [first]
              && first.content == Content(text, image, "") && CreatedMenu(first, image)
              && first.children == Some([]) && first.parent == null)
      ensures first != null ==> first in Repr && first.children.Some? && first.path == [text]
    {
      first := FirstWithText(elements, text);
      if first == null {
        var menu := new Element(Content(text, image, ""), false, NoAction, false, false, true);
        menu.path := [text];
        elements := elements + [menu];
        Repr := Repr + {menu};
        first := menu;
      } else {
        assert first in elements;
        if first.children.None? {
          return null;
        }
      }
    }

    /** A later step of `FindOrBuildTree` when no child of `lastParent` has the text: a new,
        empty sub-menu appended to the children of `lastParent`, linked back to it. */
    method NewSubMenu(lastParent: Element, text: string, image: Option<Texture>) returns (menu: Element)
      requires Valid() && lastParent in Repr && lastParent.children.Some?
      modifies this`Repr, lastParent`children
      ensures Valid() && fresh(menu) && Repr == old(Repr) + {menu}
      ensures lastParent.children == Some(old(lastParent.children.value) + [menu])
      ensures menu.content == Content(text, image, "") && CreatedMenu(menu, image) && menu.children == Some([])
      ensures menu.parent == lastParent && menu.path == lastParent.path + [text]
    {
      menu := new Element(Content(text, image, ""), false, NoAction, false, false, true);
      menu.parent := lastParent;
      menu.path := lastParent.path + [text];
      lastParent.children := Some(lastParent.children.value + [menu]);
      Repr := Repr + {menu};
    }

    /** `AddElement`: appends a new item to the top level, or to the children of `parent` and
        links it back. */
    method AddElement(element: Element, parent: Element?)
      requires Valid() && element !in Repr && element.children.None? && element.parent == null
      requires parent != null ==> parent in Repr && parent.children.Some?
      modifies this, element, (if parent == null then {} else {parent})`children
      ensures Valid() && Repr == old(Repr) + {element}
      ensures parent == null ==> elements == old(elements) + [element] && element.path == [element.content.text]
      ensures element.children.None?
      ensures parent != null ==>
        (&& elements == old(elements)
         && parent.children == Some(old(parent.children.value) + [element])
         && element.parent == parent && element.path == parent.path + [element.content.text]
         && parent.IsParent())
    {
      if parent == null {
        element.path := [element.content.text];
        elements := elements + [element];
      } else {
        parent.children := Some(parent.children.value + [element]);
        element.parent := parent;
        element.path := parent.path + [element.content.text];
      }
      Repr := Repr + {element};
    }

    /** Where an item added with `content` ends up: under the sub-menus its text names, with its
        last segment as text, or, when there is no such sub-menu, at the top level with the
        content unchanged. */
    ghost predicate Placed(e: Element, content: Content)
      reads this, e
    {
      var segs := Segments(content.text);
      && e.children.None?
      && ((e in elements && e.parent == null && e.content == content && e.path == [content.text])
          || (|segs| > 1 && e.parent != null && e.path == segs
              && e.content == Content(segs[|segs| - 1], content.image, content.tooltip)))
      && (|segs| <= 1 ==> e in elements && e.content == content)
    }

    /** The new item `e` as the last top-level entry, every other entry of the menu before
        (`kids`, `top`) left as it was. */
    ghost predicate TopLevelItem(kids: Snapshot, top: seq<Element>, e: Element)
      reads this, e, kids.Keys
    {
      e.parent == null && elements == top + [e] && Repr == kids.Keys + {e} && Untouched(kids, null)
    }

    /** What adding an item with `content` to the menu `kids`, `top` leaves behind, with `d`
        where it goes: the new item `e` is placed under its path; it is the last top-level entry
        for `TopLevel` and the last child of the existing sub-menu for `Reached`; for `Missing` it
        is the only child of the last of the sub-menus created past `d.level` (`Chain`), whose
        path is every segment but the last.  No entry of the old menu but the one that takes the
        item or the first new sub-menu has its children changed. */
    ghost predicate Inserted(kids: Snapshot, top: seq<Element>, d: Descent, e: Element, content: Content)
      reads this, Repr, e, kids.Keys
    {
      var segs := Segments(content.text);
      && kids.Keys <= Repr && e in Repr && e !in kids && Placed(e, content)
      && match d
         case TopLevel => TopLevelItem(kids, top, e)
         case Reached(m) =>
           && e.parent == m && elements == top && Repr == kids.Keys + {e} && Untouched(kids, m)
           && m in kids && kids[m].Some? && m.children == Some(kids[m].value + [e])
         case Missing(k, owner) =>
           && e.parent != null && Chain(kids, top, segs, content.image, k, owner, e.parent, {e})
           && e.parent.children == Some([e]) && e.parent.path == segs[..|segs| - 1]
    }

    /** Places a new item built from the content `FindOrBuildTree` hands back. */
    method AddBuilt(content: Content, on: bool, action: Action, isSeparator: bool, isDisabled: bool)
      returns (e: Element)
      requires Valid()
      modifies this, Repr`children
      ensures Valid() && fresh(Repr - old(Repr))
      ensures Inserted(old(Kids()), old(elements), Destination(old(Kids()), old(elements), Segments(content.text)), e, content)
      ensures e.on == on && e.action == action && e.isSeparator == isSeparator && e.isDisabled == isDisabled
    {
      ghost var kids, top := Kids(), elements;
      ghost var d := Destination(kids, top, Segments(content.text));
      var parent, newContent := FindOrBuildTree(content);
      e := new Element(newContent, on, action, isSeparator, isDisabled, false);
      if parent == null {
        PlaceTop(kids, top, d, content, e);
      } else {
        PlaceUnder(kids, top, d, content, e, parent);
      }
    }

    /** The `AddElement` call of an `Add` method when `FindOrBuildTree` found no sub-menu, with
        what it means for the menu before that call. */
    method PlaceTop(ghost kids: Snapshot, ghost top: seq<Element>, ghost d: Descent, ghost content: Content,
                    e: Element)
      requires Valid() && e !in Repr && e.children.None? && e.parent == null && e.content == content
      requires kids.Keys <= Repr && Grew(kids, top, Segments(content.text), content.image, d, null)
      modifies this, e
      ensures Valid() && Repr == old(Repr) + {e} && Inserted(kids, top, d, e, content)
    {
      AddElement(e, null);
    }

    /** The `AddElement` call of an `Add` method under the sub-menu `parent` that
        `FindOrBuildTree` handed back, with what it means for the menu before that call. */
    method PlaceUnder(ghost kids: Snapshot, ghost top: seq<Element>, ghost d: Descent, ghost content: Content,
                      e: Element, parent: Element)
      requires Valid() && e !in Repr && e.children.None? && e.parent == null
      requires kids.Keys <= Repr && Grew(kids, top, Segments(content.text), content.image, d, parent)
      requires var segs := Segments(content.text);
        && |segs| > 1 && parent in Repr && parent.children.Some? && parent.path == segs[..|segs| - 1]
        && e.content == Content(segs[|segs| - 1], content.image, content.tooltip)
      modifies this, e, parent`children
      ensures Valid() && Repr == old(Repr) + {e} && Inserted(kids, top, d, e, content)
    {
      ghost var segs := Segments(content.text);
      assert d.Missing? ==> parent.children == Some([]) && d.owner != parent;
      AddElement(e, parent);
      assert [] + [e] == [e];
      assert segs == segs[..|segs| - 1] + [segs[|segs| - 1]];
    }

    /** `AddItem(GUIContent, bool, MenuFunction)`. */
    method AddItem(content: Content, on: bool, func: nat)
      requires Valid()
      modifies this, Repr`children
      ensures Valid() && fresh(Repr - old(Repr))
      ensures exists e :: && Inserted(old(Kids()), old(elements), Destination(old(Kids()), old(elements), Segments(content.text)), e, content)
                          && e.on == on && e.action == Function(func) && !e.isSeparator && !e.isDisabled
    {
      var e := AddBuilt(content, on, Function(func), false, false);
    }

    /** `AddDisabledItem(GUIContent)`. */
    method AddDisabledItem(content: Content)
      requires Valid()
      modifies this, Repr`children
      ensures Valid() && fresh(Repr - old(Repr))
      ensures exists e :: && Inserted(old(Kids()), old(elements), Destination(old(Kids()), old(elements), Segments(content.text)), e, content)
                          && !e.on && e.action == NoAction && !e.isSeparator && e.isDisabled
    {
      var e := AddBuilt(content, false, NoAction, false, true);
    }

    /** `AddItem(GUIContent, bool, MenuFunction2, object)`. */
    method AddItemWithData(content: Content, on: bool, func: nat, data: nat)
      requires Valid()
      modifies this, Repr`children
      ensures Valid() && fresh(Repr - old(Repr))
      ensures exists e :: && Inserted(old(Kids()), old(elements), Destination(old(Kids()), old(elements), Segments(content.text)), e, content)
                          && e.on == on && e.action == FunctionWithData(func, data) && !e.isSeparator && !e.isDisabled
    {
      var e := AddBuilt(content, on, FunctionWithData(func, data), false, false);
    }

    /** `AddSeparator(string)`: a separator whose content is the text alone. */
    method AddSeparator(text: string)
      requires Valid()
      modifies this, Repr`children
      ensures Valid() && fresh(Repr - old(Repr))
      ensures exists e :: && Inserted(old(Kids()), old(elements), Destination(old(Kids()), old(elements), Segments(text)), e, Content(text, None, ""))
                          && !e.on && e.action == NoAction && e.isSeparator && !e.isDisabled
    {
      var e := AddBuilt(Content(text, None, ""), false, NoAction, true, false);
    }
  }
}
