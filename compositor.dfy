/**
 * `generate_certificate`: each present field is placed, its font resolved,
 * and its text drawn centred on the mapped x (the name also underlined);
 * when the font step raises, the text is drawn in Helvetica at the
 * uncentred x. The overlay is then stamped onto page 0 of the template.
 * Drawing is recorded as a list of commands instead of canvas calls.
 */
module Compositor {
  import opened Wrappers
  import opened Text
  import opened Numbers
  import opened Fonts
  import opened Coordinates
  import opened Positions

  /** One canvas call: `drawString(x, y, text)` after `setFont(font, size)`, or `line(x1, y1, x2, y2)`. */
  datatype Draw =
    | DrawText(font: string, size: real, x: real, y: real, text: string)
    | DrawLine(x1: real, y1: real, x2: real, y2: real)

  type Width = w: real | 0.0 <= w

  /**
   * The renderer as seen by the compositor: `width(text, font, size)` is
   * `stringWidth`, and `raises(font, size, text)` says whether the font
   * step (setFont, stringWidth, drawString, line) throws for that field.
   */
  datatype Renderer = Renderer(width: (string, string, real) -> Width, raises: (string, real, string) -> bool)

  datatype Error =
    | MissingKey(field: string, key: string)    // KeyError on pos[key]
    | NotANumber(field: string, key: string)    // ValueError from float()
    | AssetNotFound                             // the template PDF cannot be read
    | EmptyTemplate                             // the template has no page 0

  /** The three raw field values of one certificate. */
  datatype Request = Request(userName: string, courseDuration: string, certificateId: string)

  /** The fields in the order the draw loop visits them. */
  const Fields: seq<string> := ["name", "certificate_id", "course_duration"]

  function Content(req: Request, field: string): string
  {
    if field == "name" then req.userName
    else if field == "certificate_id" then req.certificateId
    else if field == "course_duration" then req.courseDuration
    else ""
  }

  /** Where and in which font a field is drawn. */
  datatype Placement = Placement(at: Point, font: string, size: real)

  /** A descriptor the draw loop can use without raising: all keys present, numbers parse. */
  predicate WellFormed(pos: Descriptor)
  {
    && Left in pos && Top in pos && FontStyle in pos && FontSize in pos
    && ParseFloat(pos[Left]).Some? && ParseFloat(pos[Top]).Some?
    && ParseFloat(RemovePx(pos[FontSize])).Some?
  }

  /**
   * The part of the loop body outside the `try`: coordinates, font name and
   * size. Errors are reported in the order Python evaluates the lookups.
   */
  function Place(field: string, pos: Descriptor): (r: Result<Placement, Error>)
    ensures r.Success? <==> WellFormed(pos)
    ensures r.Success? ==> r.value.at == ConvertCoordinates(ParseFloat(pos[Left]).value, ParseFloat(pos[Top]).value)
    ensures r.Success? ==> r.value.font == ResolveFont(pos[FontStyle]) && KnownFont(r.value.font)
    ensures r.Success? ==> ParseFloat(RemovePx(pos[FontSize])) == Some(r.value.size)
    ensures r.Failure? ==> (r.error.MissingKey? || r.error.NotANumber?) && r.error.field == field && r.error.key in DescriptorKeys
    ensures r.Failure? && r.error.MissingKey? ==> r.error.key !in pos
    ensures r.Failure? && r.error.NotANumber? ==> r.error.key in pos
  {
    if Left !in pos then Failure(MissingKey(field, Left))
    else if Top !in pos then Failure(MissingKey(field, Top))
    else match (ParseFloat(pos[Left]), ParseFloat(pos[Top]))
      case (None, _) => Failure(NotANumber(field, Left))
      case (_, None) => Failure(NotANumber(field, Top))
      case (Some(left), Some(top)) =>
        if FontStyle !in pos then Failure(MissingKey(field, FontStyle))
        else if FontSize !in pos then Failure(MissingKey(field, FontSize))
        else match ParseFloat(RemovePx(pos[FontSize]))
          case None => Failure(NotANumber(field, FontSize))
          case Some(size) => Success(Placement(ConvertCoordinates(left, top), ResolveFont(pos[FontStyle]), size))
  }

  /**
   * The error `Place` reports is the first lookup that raises, in the order
   * Python evaluates the loop body: `pos['left']`, `pos['top']`,
   * `float(left)`, `float(top)`, `pos['fontStyle']`, `pos['fontSize']`,
   * `float(fontSize)`.
   */
  lemma PlaceErrorOrder(field: string, pos: Descriptor)
    ensures Left !in pos ==> Place(field, pos) == Failure(MissingKey(field, Left))
    ensures Left in pos && Top !in pos ==> Place(field, pos) == Failure(MissingKey(field, Top))
    ensures Left in pos && Top in pos && ParseFloat(pos[Left]).None? ==>
      Place(field, pos) == Failure(NotANumber(field, Left))
    ensures Left in pos && Top in pos && ParseFloat(pos[Left]).Some? && ParseFloat(pos[Top]).None? ==>
      Place(field, pos) == Failure(NotANumber(field, Top))
    ensures (Left in pos && Top in pos && ParseFloat(pos[Left]).Some? && ParseFloat(pos[Top]).Some?
      && FontStyle !in pos) ==> Place(field, pos) == Failure(MissingKey(field, FontStyle))
    ensures (Left in pos && Top in pos && ParseFloat(pos[Left]).Some? && ParseFloat(pos[Top]).Some?
      && FontStyle in pos && FontSize !in pos) ==> Place(field, pos) == Failure(MissingKey(field, FontSize))
    ensures (Left in pos && Top in pos && ParseFloat(pos[Left]).Some? && ParseFloat(pos[Top]).Some?
      && FontStyle in pos && FontSize in pos && ParseFloat(RemovePx(pos[FontSize])).None?) ==>
      Place(field, pos) == Failure(NotANumber(field, FontSize))
  {
  }

  /**
   * The `try`/`except` of the loop body: the field's text, followed by an
   * underline for `name` on the normal path. The fallback is taken only
   * when the failure happens before anything is drawn.
   */
  function FieldDraws(field: string, content: string, pl: Placement, r: Renderer): (d: seq<Draw>)
    ensures |d| == 1 || |d| == 2
    ensures d[0].DrawText? && d[0].text == content && d[0].size == pl.size && d[0].y == pl.at.y
    ensures |d| == 2 <==> field == "name" && !r.raises(pl.font, pl.size, content)
    ensures |d| == 2 ==> d[1].DrawLine?
  {
    if r.raises(pl.font, pl.size, content) then
      [DrawText(DefaultFont, pl.size, pl.at.x, pl.at.y, content)]
    else
      var w := r.width(content, pl.font, pl.size);
      var centeredX := pl.at.x - w / 2.0;
      var text := DrawText(pl.font, pl.size, centeredX, pl.at.y, content);
      if field == "name" then [text, DrawLine(centeredX, pl.at.y - 2.0, centeredX + w, pl.at.y - 2.0)]
      else [text]
  }

  /**
   * Normal path: the text is centred on the mapped x (its left end is half
   * the measured width to the left), and only `name` is underlined, two
   * units below the baseline, by a line as long as the text and centred on
   * the same x.
   */
  lemma FieldDrawsCentred(field: string, content: string, pl: Placement, r: Renderer)
    requires !r.raises(pl.font, pl.size, content)
    ensures var d := FieldDraws(field, content, pl, r); var w := r.width(content, pl.font, pl.size);
      && d[0].font == pl.font
      && d[0].x + w / 2.0 == pl.at.x
      && (|d| == 2 <==> field == "name")
      && (|d| == 2 ==> d[1].y1 == d[1].y2 == pl.at.y - 2.0
                       && d[1].x1 == d[0].x && d[1].x2 - d[1].x1 == w
                       && (d[1].x1 + d[1].x2) / 2.0 == pl.at.x)
  {
  }

  /** Fallback: a single text in Helvetica at the uncentred mapped point, same size. */
  lemma FieldDrawsFallback(field: string, content: string, pl: Placement, r: Renderer)
    requires r.raises(pl.font, pl.size, content)
    ensures var d := FieldDraws(field, content, pl, r);
      |d| == 1 && d[0].font == DefaultFont && d[0].x == pl.at.x && d[0].y == pl.at.y
  {
  }

  /** One iteration of the draw loop: nothing for an absent field. */
  function Step(req: Request, positions: PositionSet, r: Renderer, field: string): Result<seq<Draw>, Error>
  {
    if field !in positions then Success([])
    else match Place(field, positions[field])
      case Failure(e) => Failure(e)
      case Success(pl) => Success(FieldDraws(field, Content(req, field), pl, r))
  }

  /** The loop body of one certificate, as a function of the field. */
  function StepFor(req: Request, positions: PositionSet, r: Renderer): string -> Result<seq<Draw>, Error>
  {
    field => Step(req, positions, r, field)
  }

  /**
   * A loop over `fields` whose body is `step`: the commands of every
   * iteration in visiting order, or the first error, which aborts the loop.
   */
  function Chain(fields: seq<string>, step: string -> Result<seq<Draw>, Error>): Result<seq<Draw>, Error>
    decreases |fields|
  {
    if fields == [] then Success([])
    else match Chain(fields[..|fields| - 1], step)
      case Failure(e) => Failure(e)
      case Success(done) =>
        match step(fields[|fields| - 1])
        case Failure(e) => Failure(e)
        case Success(d) => Success(done + d)
  }

  /** The draw loop of `generate_certificate` over `fields`. */
  function Plan(fields: seq<string>, req: Request, positions: PositionSet, r: Renderer): Result<seq<Draw>, Error>
  {
    Chain(fields, StepFor(req, positions, r))
  }

  /** Once a prefix of the loop has failed, the whole loop fails with that error. */
  lemma {:induction false} ChainFailureSticks(fields: seq<string>, i: nat, step: string -> Result<seq<Draw>, Error>)
    requires i <= |fields| && Chain(fields[..i], step).Failure?
    ensures Chain(fields, step) == Chain(fields[..i], step)
    decreases |fields| - i
  {
    if i < |fields| {
      var next := fields[..i + 1];
      assert next[..|next| - 1] == fields[..i];
      ChainFailureSticks(fields, i + 1, step);
    } else {
      assert fields[..i] == fields;
    }
  }

  /** Running the loop one field further. */
  lemma {:induction false} ChainSnoc(fields: seq<string>, i: nat, step: string -> Result<seq<Draw>, Error>)
    requires i < |fields| && Chain(fields[..i], step).Success?
    ensures Chain(fields[..i + 1], step) ==
      match step(fields[i])
      case Failure(e) => Failure(e)
      case Success(d) => Success(Chain(fields[..i], step).value + d)
  {
    var upTo := fields[..i + 1];
    assert upTo[..i] == fields[..i] && upTo[i] == fields[i];
  }

  /** The draw loop of `generate_certificate`, appending each field's commands to the overlay. */
  method DrawOverlay(req: Request, positions: PositionSet, r: Renderer) returns (res: Result<seq<Draw>, Error>)
    ensures res == Plan(Fields, req, positions, r)
  {
    var commands: seq<Draw> := [];
    var i := 0;
    while i < |Fields|
      invariant 0 <= i <= |Fields|
      invariant Plan(Fields[..i], req, positions, r) == Success(commands)
    {
      var field := Fields[i];
      ChainSnoc(Fields, i, StepFor(req, positions, r));
      if field in positions {
        var placed := Place(field, positions[field]);
        if placed.Failure? {
          ChainFailureSticks(Fields, i + 1, StepFor(req, positions, r));
          return Failure(placed.error);
        }
        commands := commands + FieldDraws(field, Content(req, field), placed.value, r);
      } else {
        assert commands + [] == commands;
      }
      i := i + 1;
    }
    assert Fields[..i] == Fields;
    res := Success(commands);
  }

  /** The loop succeeds exactly when every iteration does. */
  lemma {:induction false} ChainSucceedsIff(fields: seq<string>, step: string -> Result<seq<Draw>, Error>)
    ensures Chain(fields, step).Success? <==> forall j :: 0 <= j < |fields| ==> step(fields[j]).Success?
    decreases |fields|
  {
    if fields != [] {
      var init := fields[..|fields| - 1];
      ChainSucceedsIff(init, step);
      assert forall j :: 0 <= j < |init| ==> init[j] == fields[j];
    }
  }

  /** A failing loop reports the error of its first failing iteration. */
  lemma {:induction false} ChainFirstError(fields: seq<string>, step: string -> Result<seq<Draw>, Error>)
    requires Chain(fields, step).Failure?
    ensures exists j :: (0 <= j < |fields| && step(fields[j]) == Failure(Chain(fields, step).error)
      && forall k :: 0 <= k < j ==> step(fields[k]).Success?)
    decreases |fields|
  {
    var init := fields[..|fields| - 1];
    var last := |fields| - 1;
    if Chain(init, step).Failure? {
      ChainFirstError(init, step);
      var j :| 0 <= j < |init| && step(init[j]) == Failure(Chain(init, step).error)
        && forall k :: 0 <= k < j ==> step(init[k]).Success?;
      assert fields[j] == init[j];
      assert forall k :: 0 <= k < j ==> fields[k] == init[k];
    } else {
      ChainSucceedsIff(init, step);
      assert forall k :: 0 <= k < last ==> fields[k] == init[k];
    }
  }

  /** Two loop bodies that agree on every field give the same loop. */
  lemma {:induction false} ChainCongruent(fields: seq<string>, s1: string -> Result<seq<Draw>, Error>, s2: string -> Result<seq<Draw>, Error>)
    requires forall j :: 0 <= j < |fields| ==> s1(fields[j]) == s2(fields[j])
    ensures Chain(fields, s1) == Chain(fields, s2)
    decreases |fields|
  {
    if fields != [] {
      var init := fields[..|fields| - 1];
      assert forall j :: 0 <= j < |init| ==> init[j] == fields[j];
      ChainCongruent(init, s1, s2);
    }
  }

  /**
   * Two loop bodies that succeed on the same fields, and fail with the same
   * error, give loops that succeed together or fail with the same error.
   */
  lemma {:induction false} ChainSameOutcome(fields: seq<string>, s1: string -> Result<seq<Draw>, Error>, s2: string -> Result<seq<Draw>, Error>)
    requires forall j :: 0 <= j < |fields| ==> s1(fields[j]).Success? == s2(fields[j]).Success?
    requires forall j :: 0 <= j < |fields| && s1(fields[j]).Failure? ==> s1(fields[j]).error == s2(fields[j]).error
    ensures Chain(fields, s1).Success? == Chain(fields, s2).Success?
    ensures Chain(fields, s1).Failure? ==> Chain(fields, s1).error == Chain(fields, s2).error
    decreases |fields|
  {
    if fields != [] {
      var init := fields[..|fields| - 1];
      assert forall j :: 0 <= j < |init| ==> init[j] == fields[j];
      ChainSameOutcome(init, s1, s2);
    }
  }

  /** A field's iteration fails exactly when it is present and its descriptor is not well formed, with Place's error. */
  lemma StepOutcome(req: Request, positions: PositionSet, r: Renderer, field: string)
    ensures StepFor(req, positions, r)(field).Success? <==> (field in positions ==> WellFormed(positions[field]))
    ensures StepFor(req, positions, r)(field).Failure? ==>
      field in positions && Place(field, positions[field]) == Failure(StepFor(req, positions, r)(field).error)
  {
  }

  /** The loop succeeds exactly when every present field has a well-formed descriptor. */
  lemma PlanSucceedsIff(fields: seq<string>, req: Request, positions: PositionSet, r: Renderer)
    ensures Plan(fields, req, positions, r).Success? <==>
      forall j :: 0 <= j < |fields| && fields[j] in positions ==> WellFormed(positions[fields[j]])
  {
    ChainSucceedsIff(fields, StepFor(req, positions, r));
    forall j | 0 <= j < |fields| {
      StepOutcome(req, positions, r, fields[j]);
    }
  }

  /** A failing loop reports the error of the first present field that is not well-formed. */
  lemma PlanFirstError(fields: seq<string>, req: Request, positions: PositionSet, r: Renderer)
    requires Plan(fields, req, positions, r).Failure?
    ensures exists j :: (0 <= j < |fields| && fields[j] in positions
      && Place(fields[j], positions[fields[j]]) == Failure(Plan(fields, req, positions, r).error)
      && forall k :: 0 <= k < j && fields[k] in positions ==> WellFormed(positions[fields[k]]))
  {
    var step := StepFor(req, positions, r);
    ChainFirstError(fields, step);
    var j :| 0 <= j < |fields| && step(fields[j]) == Failure(Chain(fields, step).error)
      && forall k :: 0 <= k < j ==> step(fields[k]).Success?;
    StepOutcome(req, positions, r, fields[j]);
    forall k | 0 <= k < j {
      StepOutcome(req, positions, r, fields[k]);
    }
  }

  /** The overlay can only fail with a missing key or a value that is not a number. */
  lemma PlanErrorKinds(fields: seq<string>, req: Request, positions: PositionSet, r: Renderer)
    requires Plan(fields, req, positions, r).Failure?
    ensures Plan(fields, req, positions, r).error.MissingKey? || Plan(fields, req, positions, r).error.NotANumber?
  {
    PlanFirstError(fields, req, positions, r);
  }

  /** Only the entries of the visited fields matter: other keys of the table are ignored. */
  lemma PlanIgnoresOtherKeys(fields: seq<string>, req: Request, p1: PositionSet, p2: PositionSet, r: Renderer)
    requires forall j :: 0 <= j < |fields| ==> (fields[j] in p1 <==> fields[j] in p2)
    requires forall j :: 0 <= j < |fields| && fields[j] in p1 ==> p1[fields[j]] == p2[fields[j]]
    ensures Plan(fields, req, p1, r) == Plan(fields, req, p2, r)
  {
    var s1, s2 := StepFor(req, p1, r), StepFor(req, p2, r);
    forall j | 0 <= j < |fields| ensures s1(fields[j]) == s2(fields[j]) {
      assert s1(fields[j]) == Step(req, p1, r, fields[j]);
    }
    ChainCongruent(fields, s1, s2);
  }

  /** The texts drawn, in drawing order. */
  function Texts(commands: seq<Draw>): seq<string>
  {
    if commands == [] then [] else
    var last := commands[|commands| - 1];
    Texts(commands[..|commands| - 1]) + (if last.DrawText? then [last.text] else [])
  }

  /** The number of lines drawn. */
  function Underlines(commands: seq<Draw>): nat
  {
    if commands == [] then 0 else
    Underlines(commands[..|commands| - 1]) + (if commands[|commands| - 1].DrawLine? then 1 else 0)
  }

  lemma {:induction false} TextsAppend(a: seq<Draw>, b: seq<Draw>)
    ensures Texts(a + b) == Texts(a) + Texts(b)
    ensures Underlines(a + b) == Underlines(a) + Underlines(b)
    decreases |b|
  {
    if b == [] {
      assert a + b == a;
    } else {
      var b' := b[..|b| - 1];
      assert (a + b)[..|a + b| - 1] == a + b';
      TextsAppend(a, b');
    }
  }

  /** Each placed field draws its content exactly once, and only `name` can draw a line. */
  lemma FieldDrawsCounts(field: string, content: string, pl: Placement, r: Renderer)
    ensures Texts(FieldDraws(field, content, pl, r)) == [content]
    ensures Underlines(FieldDraws(field, content, pl, r)) ==
      if field == "name" && !r.raises(pl.font, pl.size, content) then 1 else 0
  {
    var d := FieldDraws(field, content, pl, r);
    var first := [d[0]];
    assert first[..0] == [];
    assert Texts(first) == [content] && Underlines(first) == 0;
    if |d| == 2 {
      assert d[..1] == first;
    } else {
      assert d == first;
    }
  }

  /** The contents of the fields present in the table, in visiting order. */
  function PresentContents(fields: seq<string>, req: Request, positions: PositionSet): seq<string>
  {
    if fields == [] then [] else
    var last := fields[|fields| - 1];
    PresentContents(fields[..|fields| - 1], req, positions) + (if last in positions then [Content(req, last)] else [])
  }

  /** A successful loop up to field `i` is the loop before it followed by that iteration. */
  lemma {:induction false} ChainSplit(fields: seq<string>, i: nat, step: string -> Result<seq<Draw>, Error>)
    requires i < |fields| && Chain(fields[..i + 1], step).Success?
    ensures Chain(fields[..i], step).Success? && step(fields[i]).Success?
    ensures Chain(fields[..i + 1], step).value == Chain(fields[..i], step).value + step(fields[i]).value
  {
    var upTo := fields[..i + 1];
    assert upTo[..i] == fields[..i] && upTo[i] == fields[i];
  }

  /** A successful overlay draws the content of every present field once, in field order, and nothing else. */
  lemma {:induction false} PlanDrawsPresentContents(fields: seq<string>, req: Request, positions: PositionSet, r: Renderer)
    requires Plan(fields, req, positions, r).Success?
    ensures Texts(Plan(fields, req, positions, r).value) == PresentContents(fields, req, positions)
    decreases |fields|
  {
    if fields != [] {
      var n := |fields| - 1;
      var init := fields[..n];
      var last := fields[n];
      var step := StepFor(req, positions, r);
      assert fields[..n + 1] == fields;
      ChainSplit(fields, n, step);
      PlanDrawsPresentContents(init, req, positions, r);
      var d := step(last).value;
      TextsAppend(Plan(init, req, positions, r).value, d);
      if last in positions {
        FieldDrawsCounts(last, Content(req, last), Place(last, positions[last]).value, r);
      }
    }
  }

  /** A successful three-field loop is the three iterations, concatenated in order. */
  lemma {:induction false} ChainThree(fields: seq<string>, step: string -> Result<seq<Draw>, Error>)
    requires |fields| == 3 && Chain(fields, step).Success?
    ensures step(fields[0]).Success? && step(fields[1]).Success? && step(fields[2]).Success?
    ensures Chain(fields, step).value == step(fields[0]).value + step(fields[1]).value + step(fields[2]).value
  {
    assert fields[..3] == fields && fields[..0] == [];
    ChainSplit(fields, 2, step);
    ChainSplit(fields, 1, step);
    ChainSplit(fields, 0, step);
    assert [] + step(fields[0]).value == step(fields[0]).value;
  }

  /** The overlay is the name's commands, then the certificate id's, then the course duration's. */
  lemma OverlayLayout(req: Request, positions: PositionSet, r: Renderer)
    requires Plan(Fields, req, positions, r).Success?
    ensures Step(req, positions, r, "name").Success?
    ensures Step(req, positions, r, "certificate_id").Success?
    ensures Step(req, positions, r, "course_duration").Success?
    ensures Plan(Fields, req, positions, r).value ==
      Step(req, positions, r, "name").value
      + Step(req, positions, r, "certificate_id").value
      + Step(req, positions, r, "course_duration").value
  {
    var step := StepFor(req, positions, r);
    ChainThree(Fields, step);
    assert step(Fields[0]) == Step(req, positions, r, "name");
    assert step(Fields[1]) == Step(req, positions, r, "certificate_id");
    assert step(Fields[2]) == Step(req, positions, r, "course_duration");
  }

  /** The name is present, placed, and its font step does not raise. */
  predicate NameUnderlined(req: Request, positions: PositionSet, r: Renderer)
  {
    "name" in positions && Place("name", positions["name"]).Success?
    && var pl := Place("name", positions["name"]).value;
    !r.raises(pl.font, pl.size, req.userName)
  }

  /** A step draws a line only for the name, and only when its font step succeeds. */
  lemma StepUnderlines(req: Request, positions: PositionSet, r: Renderer, field: string)
    requires Step(req, positions, r, field).Success?
    ensures Underlines(Step(req, positions, r, field).value) ==
      if field == "name" && NameUnderlined(req, positions, r) then 1 else 0
  {
    if field in positions {
      FieldDrawsCounts(field, Content(req, field), Place(field, positions[field]).value, r);
    }
  }

  /** Exactly one line is drawn when the name is present and its font step succeeds; otherwise none. */
  lemma UnderlineOnlyForName(req: Request, positions: PositionSet, r: Renderer)
    requires Plan(Fields, req, positions, r).Success?
    ensures Underlines(Plan(Fields, req, positions, r).value) == if NameUnderlined(req, positions, r) then 1 else 0
  {
    OverlayLayout(req, positions, r);
    var s1 := Step(req, positions, r, "name").value;
    var s2 := Step(req, positions, r, "certificate_id").value;
    var s3 := Step(req, positions, r, "course_duration").value;
    TextsAppend(s1, s2);
    TextsAppend(s1 + s2, s3);
    StepUnderlines(req, positions, r, "name");
    StepUnderlines(req, positions, r, "certificate_id");
    StepUnderlines(req, positions, r, "course_duration");
  }

  /** A PDF page: an opaque background and the drawing stamped over it. */
  datatype Page = Page(background: nat, stamped: seq<Draw>)

  /** The template file: missing or unreadable, or a PDF with its pages. */
  datatype Template = MissingTemplate | TemplatePdf(pages: seq<Page>)

  /**
   * The certificate: the overlay merged onto template page 0, written as a
   * one-page document. Placement errors come first, since the overlay is
   * drawn before the template is read.
   */
  function Compose(req: Request, positions: PositionSet, template: Template, r: Renderer): (res: Result<seq<Page>, Error>)
    ensures res.Success? <==>
      Plan(Fields, req, positions, r).Success? && template.TemplatePdf? && template.pages != []
    ensures res.Success? ==>
      && |res.value| == 1
      && res.value[0].background == template.pages[0].background
      && res.value[0].stamped == template.pages[0].stamped + Plan(Fields, req, positions, r).value
    ensures res == Failure(AssetNotFound) <==>
      Plan(Fields, req, positions, r).Success? && template.MissingTemplate?
    ensures res == Failure(EmptyTemplate) <==>
      Plan(Fields, req, positions, r).Success? && template.TemplatePdf? && template.pages == []
    ensures Plan(Fields, req, positions, r).Failure? ==>
      res == Failure(Plan(Fields, req, positions, r).error)
  {
    if Plan(Fields, req, positions, r).Failure? then
      PlanErrorKinds(Fields, req, positions, r);
      Failure(Plan(Fields, req, positions, r).error)
    else
      var overlay := Plan(Fields, req, positions, r).value;
      match template
      case MissingTemplate => Failure(AssetNotFound)
      case TemplatePdf(pages) =>
        if pages == [] then Failure(EmptyTemplate)
        else Success([Page(pages[0].background, pages[0].stamped + overlay)])
  }

  /** `generate_certificate`: draw the overlay, read the template, merge onto its first page. */
  method GenerateCertificate(req: Request, positions: PositionSet, template: Template, r: Renderer)
    returns (res: Result<seq<Page>, Error>)
    ensures res == Compose(req, positions, template, r)
  {
    var overlay := DrawOverlay(req, positions, r);
    if overlay.Failure? {
      return Failure(overlay.error);
    }
    if template.MissingTemplate? {
      return Failure(AssetNotFound);
    }
    if template.pages == [] {
      return Failure(EmptyTemplate);
    }
    var page := template.pages[0];
    res := Success([Page(page.background, page.stamped + overlay.value)]);
  }
}
