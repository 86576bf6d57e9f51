/**
  * One item of the timeline (src/components/Timeline/TimelineItem.tsx): which
  * side its main content goes on, the order of its three children, and its
  * inline style.
  */
module TimelineItem {
  import opened Wrappers

  /** `position ?? positionMain`: the item's own position wins over the timeline's. */
  function EffectivePosition(position: Option<string>, positionMain: Option<string>): Option<string>
  {
    if position.Some? then position else positionMain
  }

  predicate IsLeft(position: Option<string>, positionMain: Option<string>) {
    EffectivePosition(position, positionMain) == Some("left")
  }

  /** Array destructuring: the child at `i`, or `undefined` past the end. */
  function Child<T>(children: seq<T>, i: nat): Option<T>
  {
    if i < |children| then Some(children[i]) else None
  }

  /** `[OppositeContent, Separator, Content]`, read by position. */
  function Slots<T>(children: seq<T>): seq<Option<T>> {
    [Child(children, 0), Child(children, 1), Child(children, 2)]
  }

  /** The three children as the item renders them. */
  function Arrange<T>(children: seq<T>, position: Option<string>, positionMain: Option<string>): (r: seq<Option<T>>)
    ensures |r| == 3
    ensures r[1] == Child(children, 1)
    ensures IsLeft(position, positionMain) ==> r == [Child(children, 2), Child(children, 1), Child(children, 0)]
    ensures !IsLeft(position, positionMain) ==> r == Slots(children)
    ensures multiset(r) == multiset(Slots(children))
  {
    var opposite, separator, content := Child(children, 0), Child(children, 1), Child(children, 2);
    var isLeft := IsLeft(position, positionMain);
    [if isLeft then content else opposite, separator, if isLeft then opposite else content]
  }

  /** The two sides mirror each other, whatever the children and however each side was chosen. */
  lemma SidesMirror<T>(children: seq<T>, p1: Option<string>, m1: Option<string>, p2: Option<string>, m2: Option<string>)
    requires IsLeft(p1, m1) && !IsLeft(p2, m2)
    ensures var l, r := Arrange(children, p1, m1), Arrange(children, p2, m2);
      l[0] == r[2] && l[1] == r[1] && l[2] == r[0]
  {
  }

  /** Children past the third are never rendered. */
  lemma ExtraChildrenIgnored<T>(children: seq<T>, extra: seq<T>, position: Option<string>, positionMain: Option<string>)
    requires 3 <= |children|
    ensures Arrange(children + extra, position, positionMain) == Arrange(children, position, positionMain)
  {
  }

  /** A value in the inline style object. */
  datatype CssValue = Number(n: int) | Keyword(s: string)

  /** `{ minHeight: 70, ...style }`: the caller's keys override the default. */
  function ItemStyle(style: Option<map<string, CssValue>>): (r: map<string, CssValue>)
    ensures style.None? ==> r == map["minHeight" := Number(70)]
    ensures style.Some? ==> r.Keys == style.value.Keys + {"minHeight"}
    ensures style.Some? ==> forall k | k in style.value :: r[k] == style.value[k]
    ensures style.None? || "minHeight" !in style.value ==> r["minHeight"] == Number(70)
  {
    var base := map["minHeight" := Number(70)];
    match style
    case None => base
    case Some(s) => base + s
  }
}
