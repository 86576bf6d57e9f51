/**
  * The decisions the button component (src/components/Buttons/Button.tsx)
  * makes from its props: the padding class, the class list it hands to the
  * class composer, whether a click reaches the handler, and what it shows
  * while loading.
  */
module Button {
  import opened Wrappers
  import opened Numerals

  // ---------------------------------------------------------------------
  // Padding
  // ---------------------------------------------------------------------

  /** A number prop: absent, or an integer; 0 is falsy like absence. */
  predicate Truthy(n: Option<int>) {
    n.Some? && n.value != 0
  }

  /** Which padding rule won, with the values it uses. */
  datatype Padding =
    | Both(x: int, y: int)
    | Horizontal(x: int)
    | Vertical(y: int)
    | Uniform(n: int)
    | DefaultPadding

  /** The priority chain of `buttonPadding`: both axes, then x, then y, then `padding`, then the default. */
  function EffectivePadding(padding: Option<int>, paddingX: Option<int>, paddingY: Option<int>): (r: Padding)
    ensures r.Both? <==> Truthy(paddingX) && Truthy(paddingY)
    ensures r.Horizontal? <==> Truthy(paddingX) && !Truthy(paddingY)
    ensures r.Vertical? <==> !Truthy(paddingX) && Truthy(paddingY)
    ensures r.Uniform? <==> !Truthy(paddingX) && !Truthy(paddingY) && Truthy(padding)
    ensures (r.Both? || r.Horizontal?) ==> r.x == paddingX.value
    ensures (r.Both? || r.Vertical?) ==> r.y == paddingY.value
    ensures r.Uniform? ==> r.n == padding.value
  {
    if Truthy(paddingX) && Truthy(paddingY) then Both(paddingX.value, paddingY.value)
    else if Truthy(paddingX) then Horizontal(paddingX.value)
    else if Truthy(paddingY) then Vertical(paddingY.value)
    else if Truthy(padding) then Uniform(padding.value)
    else DefaultPadding
  }

  /** The class string each rule produces. */
  function PaddingClass(p: Padding): string {
    match p
    case Both(x, y) => "px-" + IntToString(x) + " py-" + IntToString(y)
    case Horizontal(x) => "px-" + IntToString(x)
    case Vertical(y) => "py-" + IntToString(y)
    case Uniform(n) => "p-" + IntToString(n)
    case DefaultPadding => "p-2"
  }

  /** `buttonPadding()`. */
  function ButtonPadding(padding: Option<int>, paddingX: Option<int>, paddingY: Option<int>): string {
    PaddingClass(EffectivePadding(padding, paddingX, paddingY))
  }

  /** `padding` has no effect once either axis is set; a 0 counts as absent. */
  lemma PaddingIgnoredWhenAxisSet(padding: Option<int>, other: Option<int>, paddingX: Option<int>, paddingY: Option<int>)
    requires Truthy(paddingX) || Truthy(paddingY)
    ensures ButtonPadding(padding, paddingX, paddingY) == ButtonPadding(other, paddingX, paddingY)
  {
  }

  /** An explicit 0 on any padding prop behaves as if the prop were not given. */
  lemma ZeroCountsAsAbsent(padding: Option<int>, paddingX: Option<int>, paddingY: Option<int>)
    ensures ButtonPadding(Some(0), paddingX, paddingY) == ButtonPadding(None, paddingX, paddingY)
    ensures ButtonPadding(padding, Some(0), paddingY) == ButtonPadding(padding, None, paddingY)
    ensures ButtonPadding(padding, paddingX, Some(0)) == ButtonPadding(padding, paddingX, None)
  {
  }

  /** The first index of `c` in `s`, or `|s|` when absent. */
  function IndexOf(s: string, c: char): (i: nat)
    ensures i <= |s|
    ensures forall j | 0 <= j < i :: s[j] != c
    ensures i < |s| ==> s[i] == c
  {
    if s == [] then 0 else if s[0] == c then 0 else 1 + IndexOf(s[1..], c)
  }

  /** What follows "px-": an x value alone, or an x value, " py-" and a y value. */
  function ParseAfterPx(rest: string): Option<Padding> {
    var i := IndexOf(rest, ' ');
    if i == |rest| then
      match ParseInt(rest)
      case Some(x) => Some(Horizontal(x))
      case None => None
    else if i + 4 <= |rest| && rest[i..i + 4] == " py-" then
      match (ParseInt(rest[..i]), ParseInt(rest[i + 4..]))
      case (Some(x), Some(y)) => Some(Both(x, y))
      case _ => None
    else None
  }

  /**
    * Reads a padding class back. "p-2" is read as `Uniform(2)`: the default
    * and an explicit `padding` of 2 give the same class.
    */
  function ParsePadding(s: string): Option<Padding> {
    if 3 <= |s| && s[..3] == "px-" then ParseAfterPx(s[3..])
    else if 3 <= |s| && s[..3] == "py-" then
      match ParseInt(s[3..])
      case Some(y) => Some(Vertical(y))
      case None => None
    else if 2 <= |s| && s[..2] == "p-" then
      match ParseInt(s[2..])
      case Some(n) => Some(Uniform(n))
      case None => None
    else None
  }

  lemma IndexOfSpaceFree(a: string, b: string)
    requires forall j | 0 <= j < |a| :: a[j] != ' '
    requires 1 <= |b| && b[0] == ' '
    ensures IndexOf(a + b, ' ') == |a|
  {
    assert (a + b)[|a|] == ' ';
    assert forall j | 0 <= j < |a| :: (a + b)[j] == a[j];
  }

  lemma AfterPxBoth(sx: string, sy: string, x: int, y: int)
    requires ParseInt(sx) == Some(x) && ParseInt(sy) == Some(y)
    requires forall j | 0 <= j < |sx| :: sx[j] != ' '
    ensures ParseAfterPx(sx + (" py-" + sy)) == Some(Both(x, y))
  {
    var rest := sx + (" py-" + sy);
    IndexOfSpaceFree(sx, " py-" + sy);
    assert rest[..|sx|] == sx;
    assert rest[|sx|..|sx| + 4] == " py-";
    assert rest[|sx| + 4..] == sy;
  }

  lemma BothRoundTrip(x: int, y: int)
    ensures ParsePadding(PaddingClass(Both(x, y))) == Some(Both(x, y))
  {
    var sx, sy := IntToString(x), IntToString(y);
    var rest := sx + (" py-" + sy);
    var s := "px-" + rest;
    assert PaddingClass(Both(x, y)) == s;
    assert s[..3] == "px-" && s[3..] == rest;
    AfterPxBoth(sx, sy, x, y);
  }

  lemma HorizontalRoundTrip(x: int)
    ensures ParsePadding(PaddingClass(Horizontal(x))) == Some(Horizontal(x))
  {
  }

  lemma VerticalRoundTrip(y: int)
    ensures ParsePadding(PaddingClass(Vertical(y))) == Some(Vertical(y))
  {
  }

  lemma UniformRoundTrip(n: int)
    ensures ParsePadding(PaddingClass(Uniform(n))) == Some(Uniform(n))
  {
    var sn := IntToString(n);
    var s := "p-" + sn;
    assert PaddingClass(Uniform(n)) == s;
    assert s[..2] == "p-" && s[2..] == sn;
    assert 3 <= |s| ==> s[..3] != "px-" && s[..3] != "py-" by {
      if 3 <= |s| { assert s[1] == '-'; }
    }
  }

  /** The padding class determines which rule won and the values it used. */
  lemma PaddingClassRoundTrip(p: Padding)
    ensures ParsePadding(PaddingClass(p)) == Some(if p == DefaultPadding then Uniform(2) else p)
  {
    match p
    case Both(x, y) => BothRoundTrip(x, y);
    case Horizontal(x) => HorizontalRoundTrip(x);
    case Vertical(y) => VerticalRoundTrip(y);
    case Uniform(n) => UniformRoundTrip(n);
    case DefaultPadding =>
      UniformRoundTrip(2);
      assert IntToString(2) == "2";
  }

  /** Whatever the props, the rendered padding class reads back as the rule that won. */
  lemma ButtonPaddingReadsBack(padding: Option<int>, paddingX: Option<int>, paddingY: Option<int>)
    ensures var e := EffectivePadding(padding, paddingX, paddingY);
      ParsePadding(ButtonPadding(padding, paddingX, paddingY)) == Some(if e == DefaultPadding then Uniform(2) else e)
  {
    PaddingClassRoundTrip(EffectivePadding(padding, paddingX, paddingY));
  }

  // ---------------------------------------------------------------------
  // Variant and size tables
  // ---------------------------------------------------------------------

  /** The variants the prop type declares. */
  const DeclaredVariants: set<string> :=
    {"primary", "secondary", "tertiary", "outline", "link", "ghost", "cancel", "success",
     "outlineWhite", "outlineBlue", "disabled", "danger", "outlineWhiteRed"}

  /** `buttonsVariants`. */
  const VariantClasses: map<string, string> := map[
    "primary" := "bg-blue-700 hover:bg-blue-800 text-white disabled:bg-gray-300",
    "secondary" := "bg-transparent border border-black hover:bg-white disabled:opacity-20",
    "cancel" := "bg-white text-black hover:text-white hover:bg-red-500 disabled:opacity-75",
    "error" := "text-white bg-red-500 hover:bg-red-600 disabled:opacity-75",
    "outlineBlue" := "bg-transparent border border-blue-700 text-blue-700",
    "success" := "bg-green-500 hover:bg-green-600 text-white",
    "outlineWhite" := "bg-transparent border border-white text-white hover:bg-gray-50 hover:text-black",
    "danger" := "bg-red-600 hover:bg-red-700 text-white disabled:bg-red-300",
    "outlineWhiteRed" := "bg-white border border-red-600 text-red-600 hover:bg-red-600 hover:text-white"
  ]

  /** The declared variants that `buttonsVariants` has no entry for. */
  const UnstyledVariants: set<string> := {"tertiary", "outline", "link", "ghost", "disabled"}

  /**
    * `buttonsVariants[variant]`: `undefined` (None) for a key the table lacks.
    * A declared variant goes unstyled exactly when it is one of the five
    * missing ones; the undeclared key "error" is styled.
    */
  function VariantClass(variant: string): (r: Option<string>)
    ensures variant in DeclaredVariants ==> (r.None? <==> variant in UnstyledVariants)
    ensures variant == "error" ==> r.Some?
    ensures r.Some? ==> r.value != ""
  {
    if variant in VariantClasses then Some(VariantClasses[variant]) else None
  }

  /** Five declared variants have no styling, and the table's "error" is not a declared variant. */
  lemma VariantTableGaps()
    ensures DeclaredVariants - VariantClasses.Keys == UnstyledVariants
    ensures VariantClasses.Keys - DeclaredVariants == {"error"}
  {
  }

  /** `sizeVariants`. */
  const SizeClasses: map<string, string> := map["small" := "", "medium" := "", "large" := "rounded-lg w-auto"]

  /** `sizeVariants[size] || ''`. */
  function SizeClass(size: string): (r: string)
    ensures r == (if size == "large" then "rounded-lg w-auto" else "")
  {
    if size in SizeClasses then SizeClasses[size] else ""
  }

  // ---------------------------------------------------------------------
  // The rendered button
  // ---------------------------------------------------------------------

  /** What the caller passes to `renderLoading`. */
  datatype RenderLoading<E> = RenderLoading(component: Option<E>, textLoading: Option<string>)

  /** The props the decisions read; a boolean prop left `undefined` is `false`. */
  datatype ButtonProps<E> = ButtonProps(
    variant: Option<string>,
    size: Option<string>,
    padding: Option<int>,
    paddingX: Option<int>,
    paddingY: Option<int>,
    disabled: bool,
    isLoading: bool,
    className: Option<string>,
    hasOnClick: bool,
    renderLoading: Option<RenderLoading<E>>,
    children: Option<E>)

  /**
    * The arguments handed to `composeClasses`, in order; `None` is a falsy
    * argument (`undefined` or `false`).
    */
  function ButtonClasses<E>(p: ButtonProps<E>): (r: seq<Option<string>>)
    ensures |r| == 7
    ensures r[2] == Some(ButtonPadding(p.padding, p.paddingX, p.paddingY))
    ensures r[3] == VariantClass(p.variant.GetOr("primary"))
    ensures r[4] == Some("cursor-not-allowed") <==> p.isLoading || p.disabled
    ensures r[4] == None <==> !(p.isLoading || p.disabled)
    ensures r[5] == Some(SizeClass(p.size.GetOr("medium")))
    ensures r[6] == Some(p.className.GetOr(""))
  {
    [ Some("rounded-md font-bold transition duration-500 ease-out"),
      Some("hover:ease-in "),
      Some(ButtonPadding(p.padding, p.paddingX, p.paddingY)),
      VariantClass(p.variant.GetOr("primary")),
      if p.isLoading || p.disabled then Some("cursor-not-allowed") else None,
      Some(SizeClass(p.size.GetOr("medium"))),
      Some(p.className.GetOr(""))
    ]
  }

  /** The click guard: the handler runs only if given, and the button is neither disabled nor loading. */
  function ClickInvokesHandler<E>(p: ButtonProps<E>): bool {
    !p.disabled && p.hasOnClick && !p.isLoading
  }

  /**
    * With a handler, a click reaches it exactly when the button does not
    * carry the not-allowed cursor; without one, a click never calls anything.
    */
  lemma ClickAllowedIffNoForbiddenCursor<E>(p: ButtonProps<E>)
    ensures !p.hasOnClick ==> !ClickInvokesHandler(p)
    ensures p.hasOnClick ==> (ClickInvokesHandler(p) <==> ButtonClasses(p)[4] == None)
  {
  }

  /** What the button shows. */
  datatype Content<E> =
    | Children(node: E)
    | LoadingComponent(component: E)
    | LoadingSpinner(text: string)

  const DefaultLoadingText := "Cargando..."

  /** `ContentLoading`: a supplied component wins, else a spinner with the text or its default. */
  function LoadingContent<E>(r: Option<RenderLoading<E>>): (c: Content<E>)
    ensures c.LoadingComponent? || c.LoadingSpinner?
    ensures c.LoadingComponent? <==> r.Some? && r.value.component.Some?
    ensures c.LoadingComponent? ==> c.component == r.value.component.value
    ensures c.LoadingSpinner? ==> c.text == (if r.Some? then r.value.textLoading.GetOr(DefaultLoadingText) else DefaultLoadingText)
  {
    match r
    case None => LoadingSpinner(DefaultLoadingText)
    case Some(RenderLoading(component, textLoading)) =>
      match component
      case Some(e) => LoadingComponent(e)
      case None => LoadingSpinner(textLoading.GetOr(DefaultLoadingText))
  }

  /**
    * `isLoading ? <ContentLoading/> : children`, where `defaultChildren`
    * stands for the "Click Me!" default applied to an absent `children` prop.
    */
  function ButtonContent<E>(p: ButtonProps<E>, defaultChildren: E): Content<E>
  {
    if p.isLoading then LoadingContent(p.renderLoading) else Children(p.children.GetOr(defaultChildren))
  }

  /**
    * Loading hides the children whatever they are: a supplied loading
    * component is shown as given, otherwise a spinner with the loading text,
    * 'Cargando...' by default. Once loading ends the children come back, or
    * the default children when none were passed.
    */
  lemma LoadingReplacesChildren<E>(p: ButtonProps<E>, defaultChildren: E)
    ensures p.isLoading ==> !ButtonContent(p, defaultChildren).Children?
    ensures p.isLoading && p.renderLoading.Some? && p.renderLoading.value.component.Some? ==>
      ButtonContent(p, defaultChildren) == LoadingComponent(p.renderLoading.value.component.value)
    ensures p.isLoading && p.renderLoading.Some? && p.renderLoading.value.component.None? ==>
      ButtonContent(p, defaultChildren) == LoadingSpinner(p.renderLoading.value.textLoading.GetOr("Cargando..."))
    ensures p.isLoading && p.renderLoading.None? ==> ButtonContent(p, defaultChildren) == LoadingSpinner("Cargando...")
    ensures ButtonContent(p.(isLoading := false), defaultChildren) == Children(p.children.GetOr(defaultChildren))
  {
  }
}
