/**
 * The holiday certificate: a fixed HTML template whose five placeholders
 * `{{surname}}`, `{{name}}`, `{{patronymic}}`, `{{holiday_date}}` and
 * `{{current_date}}` are filled by five successive `str.replace` calls, in that
 * order. The markup between the placeholders is a parameter: the theorems hold
 * for every template whose chunks carry no placeholder syntax.
 */
module Document {
  import opened Wrappers
  import opened Models
  import opened Api
  import opened Text
  import Dates

  datatype Placeholder = Surname | Name | Patronymic | HolidayDate | CurrentDate

  /** The name written between the braces of a placeholder. */
  function Key(p: Placeholder): string {
    match p
    case Surname => "surname"
    case Name => "name"
    case Patronymic => "patronymic"
    case HolidayDate => "holiday_date"
    case CurrentDate => "current_date"
  }

  /** The placeholder as it appears in the template. */
  function Tag(p: Placeholder): (t: string)
    ensures |t| >= 5 && t[..2] == "{{"
  {
    "{{" + Key(p) + "}}"
  }

  /** Characters a placeholder is written with. */
  predicate TagChar(c: char) {
    c == '{' || c == '}' || c == '_' || 'a' <= c <= 'z'
  }

  /** Characters a placeholder name is written with. */
  predicate KeyChar(c: char) {
    c == '_' || 'a' <= c <= 'z'
  }

  /** Template text around the placeholders, in the order they appear. */
  datatype Template = Template(
    head: string,
    afterSurname: string,
    afterName: string,
    afterPatronymic: string,
    afterHolidayDate: string,
    tail: string)

  /** The template text, each placeholder appearing once. */
  function TemplateText(t: Template): string {
    t.head + Tag(Surname) + t.afterSurname + Tag(Name) + t.afterName + Tag(Patronymic)
    + t.afterPatronymic + Tag(HolidayDate) + t.afterHolidayDate + Tag(CurrentDate) + t.tail
  }

  /**
   * Markup that cannot take part in a placeholder: it has no `{{`, and neither
   * its first nor its last character can continue a placeholder begun or
   * ended next to it.
   */
  predicate Inert(c: string) {
    c != [] && !TagChar(c[0]) && !TagChar(c[|c| - 1]) && !Occurs(c, "{{")
  }

  predicate WellFormed(t: Template) {
    && Inert(t.head) && Inert(t.afterSurname) && Inert(t.afterName)
    && Inert(t.afterPatronymic) && Inert(t.afterHolidayDate) && Inert(t.tail)
  }

  /**
   * `generate_holiday_document`: the holiday date must parse as `%Y-%m-%d`,
   * otherwise the function raises 400; both dates are written as
   * `DD.MM.YYYY`; the placeholders are replaced in template order. The current
   * date is a parameter, since the source reads the clock.
   */
  function GenerateHolidayDocument(t: Template, surname: string, name: string, patronymic: string,
                                   holidayDate: string, today: Date): (r: Result<string, Failure>)
    requires Dates.Valid(today)
    ensures r.Ok? <==> Dates.Parse(holidayDate).Some?
    ensures r.Err? ==> r.error == BadRequest(MalformedDate)
  {
    match Dates.Parse(holidayDate)
    case None => Err(BadRequest(MalformedDate))
    case Some(day) =>
      Ok(Fill(TemplateText(t), [surname, name, patronymic, Dates.DottedText(day), Dates.DottedText(today)]))
  }

  /**
   * POST /documents/holiday: the certificate text that goes into the returned
   * file. The endpoint wraps the renderer in `try ... except Exception`, so the
   * renderer's 400 for a malformed date reaches the client as a 500.
   */
  function CreateHolidayDocument(t: Template, surname: string, name: string, patronymic: string,
                                 holidayDate: string, today: Date): (r: Result<string, Failure>)
    requires Dates.Valid(today)
    ensures r.Ok? <==> Dates.Parse(holidayDate).Some?
    ensures r.Err? ==> r.error == ServerError(MalformedDate)
    ensures r.Ok? ==> r == GenerateHolidayDocument(t, surname, name, patronymic, holidayDate, today)
  {
    match GenerateHolidayDocument(t, surname, name, patronymic, holidayDate, today)
    case Ok(document) => Ok(document)
    case Err(f) => Err(ServerError(f.reason))
  }

  /**
   * The five replacements, applied in order. Text without `{{` holds no
   * placeholder and passes through unchanged; where each value lands in a
   * well-formed template is the subject of `FillLayout` and `FillPlain`.
   */
  function Fill(s: string, values: seq<string>): (r: string)
    requires |values| == 5
    ensures Plain(s) ==> r == s
  {
    assert Plain(s) ==> Replace(s, Tag(Surname), values[0]) == s && Replace(s, Tag(Name), values[1]) == s
                        && Replace(s, Tag(Patronymic), values[2]) == s && Replace(s, Tag(HolidayDate), values[3]) == s
                        && Replace(s, Tag(CurrentDate), values[4]) == s by {
      if Plain(s) {
        PlainUnchanged(s, Surname, values[0]);
        PlainUnchanged(s, Name, values[1]);
        PlainUnchanged(s, Patronymic, values[2]);
        PlainUnchanged(s, HolidayDate, values[3]);
        PlainUnchanged(s, CurrentDate, values[4]);
      }
    }
    Replace(Replace(Replace(Replace(Replace(s,
      Tag(Surname), values[0]), Tag(Name), values[1]), Tag(Patronymic), values[2]),
      Tag(HolidayDate), values[3]), Tag(CurrentDate), values[4])
  }

  // ---------------------------------------------------------------------------
  // Text framed by markup chunks
  // ---------------------------------------------------------------------------

  /** `cs[0] + xs[0] + cs[1] + ... + xs[n-1] + cs[n]`. */
  function Frame(cs: seq<string>, xs: seq<string>): string
    requires |cs| == |xs| + 1
    decreases |xs|
  {
    if xs == [] then cs[0] else cs[0] + xs[0] + Frame(cs[1..], xs[1..])
  }

  /** Every element of `xs` with `p` replaced by `r`. */
  function ReplaceEach(xs: seq<string>, p: string, r: string): (ys: seq<string>)
    requires p != []
    ensures |ys| == |xs|
    ensures forall i | 0 <= i < |xs| :: ys[i] == Replace(xs[i], p, r)
  {
    if xs == [] then [] else [Replace(xs[0], p, r)] + ReplaceEach(xs[1..], p, r)
  }

  predicate AllInert(cs: seq<string>) {
    forall i | 0 <= i < |cs| :: Inert(cs[i])
  }

  /** A framed text starts with its first chunk. */
  lemma FrameStart(cs: seq<string>, xs: seq<string>)
    requires |cs| == |xs| + 1 && cs[0] != []
    ensures Frame(cs, xs) != [] && Frame(cs, xs)[0] == cs[0][0]
  {
  }

  /** Every character of a placeholder is a placeholder character. */
  lemma TagChars(p: Placeholder)
    ensures forall j | 0 <= j < |Tag(p)| :: TagChar(Tag(p)[j])
  {
    var k := Key(p);
    assert forall j | 0 <= j < |k| :: KeyChar(k[j]);
    forall j | 0 <= j < |Tag(p)|
      ensures TagChar(Tag(p)[j])
    {
      if 2 <= j < 2 + |k| {
        assert Tag(p)[j] == k[j - 2];
      }
    }
  }

  /** A character that no placeholder is written with is not in any placeholder. */
  lemma NotInTag(c: char, p: Placeholder)
    requires !TagChar(c)
    ensures c !in Tag(p)
  {
    TagChars(p);
  }

  /** Markup without `{{` contains no placeholder. */
  lemma InertHasNoTag(c: string, p: Placeholder)
    requires !Occurs(c, "{{")
    ensures !Occurs(c, Tag(p))
  {
    forall i | 0 <= i <= |c|
      ensures !At(c, Tag(p), i)
    {
      if i + |Tag(p)| <= |c| {
        assert !At(c, "{{", i);
        assert c[i..i + |Tag(p)|][..2] == c[i..i + 2];
      }
    }
  }

  /** True iff `k` is a possible placeholder name. */
  predicate KeyText(k: string) {
    k != [] && forall j | 0 <= j < |k| :: KeyChar(k[j])
  }

  lemma KeysAreKeyText(p: Placeholder)
    ensures KeyText(Key(p))
  {
  }

  /**
   * A placeholder never occurs inside a different one: its `{{` could only sit
   * at the start, and its `}}` only at the end.
   */
  lemma {:induction false} BracedNotInBraced(kq: string, kp: string)
    requires KeyText(kq) && KeyText(kp) && kp != kq
    ensures !Occurs("{{" + kq + "}}", "{{" + kp + "}}")
  {
    var s, t := "{{" + kq + "}}", "{{" + kp + "}}";
    forall i | 0 <= i <= |s|
      ensures !At(s, t, i)
    {
      if 0 < i && i + |t| <= |s| {
        assert s[i..i + |t|][1] == s[i + 1];
        assert s[i + 1] == kq[i - 1];
      } else if i == 0 && |t| < |s| {
        assert s[..|t|][|t| - 2] == s[|t| - 2];
        assert s[|t| - 2] == kq[|t| - 4];
      } else if i == 0 && |t| == |s| {
        assert kp == t[2..|t| - 2];
        assert kq == s[2..|s| - 2];
      }
    }
  }

  /** One placeholder never occurs inside another. */
  lemma TagNotInOtherTag(p: Placeholder, q: Placeholder)
    requires p != q
    ensures !Occurs(Tag(q), Tag(p))
  {
    KeysAreKeyText(p);
    KeysAreKeyText(q);
    assert Key(p) != Key(q);
    BracedNotInBraced(Key(q), Key(p));
  }

  /** Replacing a placeholder inside a different placeholder changes nothing. */
  lemma ReplaceOtherTag(p: Placeholder, q: Placeholder, r: string)
    requires p != q
    ensures Replace(Tag(q), Tag(p), r) == Tag(q)
  {
    TagNotInOtherTag(p, q);
    ReplaceAbsent(Tag(q), Tag(p), r);
  }

  /**
   * Replacing a placeholder in inert markup followed by a value and by text
   * that starts with a non-placeholder character: each part is replaced alone.
   */
  lemma ReplaceChunkValue(c: string, x: string, rest: string, p: Placeholder, r: string)
    requires Inert(c) && rest != [] && !TagChar(rest[0])
    ensures Replace(c + x + rest, Tag(p), r) == c + Replace(x, Tag(p), r) + Replace(rest, Tag(p), r)
  {
    var t := Tag(p);
    InertHasNoTag(c, p);
    assert c + x + rest == c + (x + rest);
    NotInTag(c[|c| - 1], p);
    GuardAfter(c, x + rest, t);
    ReplaceSplit(c, x + rest, t, r);
    ReplaceAbsent(c, t, r);
    NotInTag(rest[0], p);
    GuardBefore(x, rest, t);
    ReplaceSplit(x, rest, t, r);
  }

  /**
   * Replacing a placeholder in a framed text replaces it in each framed value
   * separately and leaves the inert chunks as they are.
   */
  lemma {:induction false} ReplaceFrame(cs: seq<string>, xs: seq<string>, p: Placeholder, r: string)
    requires |cs| == |xs| + 1 && AllInert(cs)
    ensures Replace(Frame(cs, xs), Tag(p), r) == Frame(cs, ReplaceEach(xs, Tag(p), r))
    decreases |xs|
  {
    var t := Tag(p);
    var ys := ReplaceEach(xs, t, r);
    if xs == [] {
      InertHasNoTag(cs[0], p);
      ReplaceAbsent(cs[0], t, r);
    } else {
      var rest := Frame(cs[1..], xs[1..]);
      assert Inert(cs[0]) && Inert(cs[1]);
      assert AllInert(cs[1..]) by {
        forall i | 0 <= i < |cs[1..]|
          ensures Inert(cs[1..][i])
        {
          assert cs[1..][i] == cs[i + 1];
        }
      }
      FrameStart(cs[1..], xs[1..]);
      ReplaceChunkValue(cs[0], xs[0], rest, p, r);
      ReplaceFrame(cs[1..], xs[1..], p, r);
      assert ys[1..] == ReplaceEach(xs[1..], t, r);
      assert Frame(cs, ys) == cs[0] + ys[0] + Frame(cs[1..], ys[1..]);
    }
  }

  // ---------------------------------------------------------------------------
  // What the rendered certificate looks like
  // ---------------------------------------------------------------------------

  function Chunks(t: Template): seq<string> {
    [t.head, t.afterSurname, t.afterName, t.afterPatronymic, t.afterHolidayDate, t.tail]
  }

  /** The template's markup around five values, one per placeholder position. */
  function Layout(t: Template, x1: string, x2: string, x3: string, x4: string, x5: string): string {
    t.head + x1 + t.afterSurname + x2 + t.afterName + x3 + t.afterPatronymic + x4 + t.afterHolidayDate + x5 + t.tail
  }

  /** The template's markup framing five values is a frame of its chunks. */
  lemma LayoutFrame(t: Template, x1: string, x2: string, x3: string, x4: string, x5: string)
    ensures Layout(t, x1, x2, x3, x4, x5) == Frame(Chunks(t), [x1, x2, x3, x4, x5])
  {
    var cs, xs := Chunks(t), [x1, x2, x3, x4, x5];
    var f5 := Frame(cs[5..], xs[5..]);
    assert f5 == t.tail;
    var f4 := Frame(cs[4..], xs[4..]);
    assert cs[4..][1..] == cs[5..] && xs[4..][1..] == xs[5..];
    assert f4 == t.afterHolidayDate + x5 + f5;
    var f3 := Frame(cs[3..], xs[3..]);
    assert cs[3..][1..] == cs[4..] && xs[3..][1..] == xs[4..];
    assert f3 == t.afterPatronymic + x4 + f4;
    var f2 := Frame(cs[2..], xs[2..]);
    assert cs[2..][1..] == cs[3..] && xs[2..][1..] == xs[3..];
    assert f2 == t.afterName + x3 + f3;
    var f1 := Frame(cs[1..], xs[1..]);
    assert cs[1..][1..] == cs[2..] && xs[1..][1..] == xs[2..];
    assert f1 == t.afterSurname + x2 + f2;
    assert Frame(cs, xs) == t.head + x1 + f1;
  }

  /** Replacing one placeholder in a well-formed layout replaces it in each value alone. */
  lemma ReplaceLayout(t: Template, x1: string, x2: string, x3: string, x4: string, x5: string,
                      p: Placeholder, r: string)
    requires WellFormed(t)
    ensures Replace(Layout(t, x1, x2, x3, x4, x5), Tag(p), r)
            == Layout(t, Replace(x1, Tag(p), r), Replace(x2, Tag(p), r), Replace(x3, Tag(p), r),
                         Replace(x4, Tag(p), r), Replace(x5, Tag(p), r))
  {
    var T := Tag(p);
    LayoutFrame(t, x1, x2, x3, x4, x5);
    ReplaceFrame(Chunks(t), [x1, x2, x3, x4, x5], p, r);
    var ys := ReplaceEach([x1, x2, x3, x4, x5], T, r);
    assert ys == [Replace(x1, T, r), Replace(x2, T, r), Replace(x3, T, r), Replace(x4, T, r), Replace(x5, T, r)];
    LayoutFrame(t, ys[0], ys[1], ys[2], ys[3], ys[4]);
  }

  /**
   * The rendered certificate is the template's markup with each placeholder
   * replaced by its value, where a value is itself subject to every later
   * replacement: a surname that contains `{{name}}` has the name substituted
   * into it, because the replacements run one after another over the whole
   * text.
   */
  lemma {:induction false} FillLayout(t: Template, v: seq<string>)
    requires WellFormed(t) && |v| == 5
    ensures Fill(TemplateText(t), v)
            == Layout(t,
                 Replace(Replace(Replace(Replace(v[0], Tag(Name), v[1]), Tag(Patronymic), v[2]), Tag(HolidayDate), v[3]), Tag(CurrentDate), v[4]),
                 Replace(Replace(Replace(v[1], Tag(Patronymic), v[2]), Tag(HolidayDate), v[3]), Tag(CurrentDate), v[4]),
                 Replace(Replace(v[2], Tag(HolidayDate), v[3]), Tag(CurrentDate), v[4]),
                 Replace(v[3], Tag(CurrentDate), v[4]),
                 v[4])
  {
    var T1, T2, T3, T4, T5 := Tag(Surname), Tag(Name), Tag(Patronymic), Tag(HolidayDate), Tag(CurrentDate);
    assert TemplateText(t) == Layout(t, T1, T2, T3, T4, T5);

    ReplaceLayout(t, T1, T2, T3, T4, T5, Surname, v[0]);
    ReplaceOtherTag(Surname, Name, v[0]);
    ReplaceOtherTag(Surname, Patronymic, v[0]);
    ReplaceOtherTag(Surname, HolidayDate, v[0]);
    ReplaceOtherTag(Surname, CurrentDate, v[0]);
    var s1 := Replace(TemplateText(t), T1, v[0]);
    assert s1 == Layout(t, v[0], T2, T3, T4, T5);

    ReplaceLayout(t, v[0], T2, T3, T4, T5, Name, v[1]);
    ReplaceOtherTag(Name, Patronymic, v[1]);
    ReplaceOtherTag(Name, HolidayDate, v[1]);
    ReplaceOtherTag(Name, CurrentDate, v[1]);
    var a1 := Replace(v[0], T2, v[1]);
    var s2 := Replace(s1, T2, v[1]);
    assert s2 == Layout(t, a1, v[1], T3, T4, T5);

    ReplaceLayout(t, a1, v[1], T3, T4, T5, Patronymic, v[2]);
    ReplaceOtherTag(Patronymic, HolidayDate, v[2]);
    ReplaceOtherTag(Patronymic, CurrentDate, v[2]);
    var b1, b2 := Replace(a1, T3, v[2]), Replace(v[1], T3, v[2]);
    var s3 := Replace(s2, T3, v[2]);
    assert s3 == Layout(t, b1, b2, v[2], T4, T5);

    ReplaceLayout(t, b1, b2, v[2], T4, T5, HolidayDate, v[3]);
    ReplaceOtherTag(HolidayDate, CurrentDate, v[3]);
    var c1, c2, c3 := Replace(b1, T4, v[3]), Replace(b2, T4, v[3]), Replace(v[2], T4, v[3]);
    var s4 := Replace(s3, T4, v[3]);
    assert s4 == Layout(t, c1, c2, c3, v[3], T5);

    ReplaceLayout(t, c1, c2, c3, v[3], T5, CurrentDate, v[4]);
  }

  // ---------------------------------------------------------------------------
  // Consequences for ordinary input
  // ---------------------------------------------------------------------------

  /** Text that cannot start a placeholder. */
  predicate Plain(x: string) {
    !Occurs(x, "{{")
  }

  /** Plain text is copied by every replacement. */
  lemma PlainUnchanged(x: string, p: Placeholder, r: string)
    requires Plain(x)
    ensures Replace(x, Tag(p), r) == x
  {
    InertHasNoTag(x, p);
    ReplaceAbsent(x, Tag(p), r);
  }

  /** With plain values, each value lands verbatim where its placeholder stood. */
  lemma FillPlain(t: Template, v: seq<string>)
    requires WellFormed(t) && |v| == 5
    requires Plain(v[0]) && Plain(v[1]) && Plain(v[2]) && Plain(v[3])
    ensures Fill(TemplateText(t), v) == Layout(t, v[0], v[1], v[2], v[3], v[4])
  {
    FillLayout(t, v);
    PlainUnchanged(v[0], Name, v[1]);
    PlainUnchanged(v[0], Patronymic, v[2]);
    PlainUnchanged(v[0], HolidayDate, v[3]);
    PlainUnchanged(v[0], CurrentDate, v[4]);
    PlainUnchanged(v[1], Patronymic, v[2]);
    PlainUnchanged(v[1], HolidayDate, v[3]);
    PlainUnchanged(v[1], CurrentDate, v[4]);
    PlainUnchanged(v[2], HolidayDate, v[3]);
    PlainUnchanged(v[2], CurrentDate, v[4]);
    PlainUnchanged(v[3], CurrentDate, v[4]);
  }

  /** A placeholder written into the surname is filled by the later name replacement. */
  lemma NameInsideSurnameIsFilled(t: Template, v: seq<string>)
    requires WellFormed(t) && |v| == 5 && v[0] == Tag(Name)
    requires Plain(v[1]) && Plain(v[2]) && Plain(v[3])
    ensures Fill(TemplateText(t), v) == Layout(t, v[1], v[1], v[2], v[3], v[4])
  {
    FillLayout(t, v);
    PlainUnchanged(v[1], Patronymic, v[2]);
    PlainUnchanged(v[1], HolidayDate, v[3]);
    PlainUnchanged(v[1], CurrentDate, v[4]);
    PlainUnchanged(v[2], HolidayDate, v[3]);
    PlainUnchanged(v[2], CurrentDate, v[4]);
    PlainUnchanged(v[3], CurrentDate, v[4]);
  }

  /** A placeholder already replaced stays literal when it arrives inside a later value. */
  lemma SurnameInsideNameStaysLiteral(t: Template, v: seq<string>)
    requires WellFormed(t) && |v| == 5 && v[1] == Tag(Surname)
    requires Plain(v[0]) && Plain(v[2]) && Plain(v[3])
    ensures Fill(TemplateText(t), v) == Layout(t, v[0], Tag(Surname), v[2], v[3], v[4])
  {
    FillLayout(t, v);
    ReplaceOtherTag(Name, Surname, v[1]);
    ReplaceOtherTag(Patronymic, Surname, v[2]);
    ReplaceOtherTag(HolidayDate, Surname, v[3]);
    ReplaceOtherTag(CurrentDate, Surname, v[4]);
    PlainUnchanged(v[0], Name, v[1]);
    PlainUnchanged(v[0], Patronymic, v[2]);
    PlainUnchanged(v[0], HolidayDate, v[3]);
    PlainUnchanged(v[0], CurrentDate, v[4]);
    PlainUnchanged(v[2], HolidayDate, v[3]);
    PlainUnchanged(v[2], CurrentDate, v[4]);
    PlainUnchanged(v[3], CurrentDate, v[4]);
  }

  /** Appending inert markup to plain text ending in a non-placeholder character. */
  lemma AppendChunk(x: string, c: string)
    requires Plain(x) && Inert(c)
    ensures Plain(x + c) && x + c != [] && !TagChar((x + c)[|x + c| - 1])
  {
    assert c[0] !in "{{";
    GuardBefore(x, c, "{{");
    ConcatAbsent(x, c, "{{");
  }

  /** Appending plain text after a character that cannot start a placeholder. */
  lemma AppendValue(x: string, y: string)
    requires Plain(x) && Plain(y) && x != [] && !TagChar(x[|x| - 1])
    ensures Plain(x + y)
  {
    assert x[|x| - 1] !in "{{";
    GuardAfter(x, y, "{{");
    ConcatAbsent(x, y, "{{");
  }

  /** A well-formed template filled with plain values has no placeholder left in it. */
  lemma LayoutIsPlain(t: Template, x1: string, x2: string, x3: string, x4: string, x5: string)
    requires WellFormed(t)
    requires Plain(x1) && Plain(x2) && Plain(x3) && Plain(x4) && Plain(x5)
    ensures Plain(Layout(t, x1, x2, x3, x4, x5))
    ensures forall p :: !Occurs(Layout(t, x1, x2, x3, x4, x5), Tag(p))
  {
    AbsentChar([], "{{", '{');
    AppendChunk([], t.head);
    assert [] + t.head == t.head;
    AppendValue(t.head, x1);
    AppendChunk(t.head + x1, t.afterSurname);
    AppendValue(t.head + x1 + t.afterSurname, x2);
    AppendChunk(t.head + x1 + t.afterSurname + x2, t.afterName);
    AppendValue(t.head + x1 + t.afterSurname + x2 + t.afterName, x3);
    AppendChunk(t.head + x1 + t.afterSurname + x2 + t.afterName + x3, t.afterPatronymic);
    AppendValue(t.head + x1 + t.afterSurname + x2 + t.afterName + x3 + t.afterPatronymic, x4);
    AppendChunk(t.head + x1 + t.afterSurname + x2 + t.afterName + x3 + t.afterPatronymic + x4, t.afterHolidayDate);
    AppendValue(t.head + x1 + t.afterSurname + x2 + t.afterName + x3 + t.afterPatronymic + x4 + t.afterHolidayDate, x5);
    AppendChunk(t.head + x1 + t.afterSurname + x2 + t.afterName + x3 + t.afterPatronymic + x4 + t.afterHolidayDate + x5, t.tail);
    forall p
      ensures !Occurs(Layout(t, x1, x2, x3, x4, x5), Tag(p))
    {
      InertHasNoTag(Layout(t, x1, x2, x3, x4, x5), p);
    }
  }

  /** A date written as `DD.MM.YYYY` is plain text. */
  lemma DottedIsPlain(d: Date)
    requires Dates.Valid(d)
    ensures Plain(Dates.DottedText(d))
  {
    var s := Dates.DottedText(d);
    assert forall i | 0 <= i < |s| :: s[i] != '{';
    AbsentChar(s, "{{", '{');
  }

  /**
   * For names without `{{`, a parseable date produces the template with the
   * names, the holiday date and today's date written verbatim in the places
   * of their placeholders, and with no placeholder left.
   */
  lemma GeneratedCertificate(t: Template, surname: string, name: string, patronymic: string,
                             holidayDate: string, today: Date)
    requires WellFormed(t) && Dates.Valid(today)
    requires Plain(surname) && Plain(name) && Plain(patronymic)
    requires Dates.Parse(holidayDate).Some?
    ensures var doc := Layout(t, surname, name, patronymic,
                              Dates.DottedText(Dates.Parse(holidayDate).value), Dates.DottedText(today));
            GenerateHolidayDocument(t, surname, name, patronymic, holidayDate, today) == Ok(doc)
            && forall p :: !Occurs(doc, Tag(p))
  {
    var day := Dates.Parse(holidayDate).value;
    DottedIsPlain(day);
    DottedIsPlain(today);
    FillPlain(t, [surname, name, patronymic, Dates.DottedText(day), Dates.DottedText(today)]);
    LayoutIsPlain(t, surname, name, patronymic, Dates.DottedText(day), Dates.DottedText(today));
  }

  /** The dates of the example certificate. */
  lemma ExampleDates()
    ensures Dates.Parse("2024-03-01") == Some(Date(2024, 3, 1))
    ensures Dates.DottedText(Date(2024, 3, 1)) == "01.03.2024"
    ensures Dates.Valid(Date(2026, 10, 10)) && Dates.DottedText(Date(2026, 10, 10)) == "10.10.2026"
  {
    Dates.ParseIsoText(Date(2024, 3, 1));
    assert Dates.IsoText(Date(2024, 3, 1)) == "2024-03-01";
  }

  /** A padded holiday date is rearranged into `DD.MM.YYYY` in the certificate. */
  lemma CertificateExample(t: Template)
    requires WellFormed(t)
    ensures GenerateHolidayDocument(t, "Иванов", "Иван", "Иванович", "2024-03-01", Date(2026, 10, 10))
            == Ok(Layout(t, "Иванов", "Иван", "Иванович", "01.03.2024", "10.10.2026"))
  {
    ExampleDates();
    AbsentChar("Иванов", "{{", '{');
    AbsentChar("Иван", "{{", '{');
    AbsentChar("Иванович", "{{", '{');
    GeneratedCertificate(t, "Иванов", "Иван", "Иванович", "2024-03-01", Date(2026, 10, 10));
  }

  /** Text that is not a date: the renderer raises 400 and the endpoint answers 500. */
  lemma MalformedDateExample(t: Template)
    ensures GenerateHolidayDocument(t, "Иванов", "Иван", "Иванович", "not-a-date", Date(2026, 10, 10))
            == Err(BadRequest(MalformedDate))
    ensures CreateHolidayDocument(t, "Иванов", "Иван", "Иванович", "not-a-date", Date(2026, 10, 10))
            == Err(ServerError(MalformedDate))
  {
    Dates.FieldExamples();
  }
}
