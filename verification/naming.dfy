/** `getFormattedDateTime`: the day folder and the file name of a request's
    snapshot, derived from one reading of the local clock. */
module Naming {

  import opened Wrappers
  import opened Text

  /** The local-time components `Date` reports: `month` is `getMonth() + 1`. */
  datatype Clock = Clock(year: int, month: nat, day: nat, hours: nat, minutes: nat, seconds: nat, millis: nat)

  /** The ranges a `Date` reading keeps its components in. */
  predicate ValidClock(c: Clock) {
    && 1 <= c.month <= 12
    && 1 <= c.day <= 31
    && c.hours < 24
    && c.minutes < 60
    && c.seconds < 60
    && c.millis < 1000
  }

  /** A template literal, piece by piece: fixed text, or a number written with
      `String(n).padStart(width, '0')`. */
  datatype Template =
    | End
    | Lit(text: string, rest: Template)
    | Field(width: nat, rest: Template)

  function FieldCount(p: Template): nat {
    match p
    case End => 0
    case Lit(_, rest) => FieldCount(rest)
    case Field(_, rest) => 1 + FieldCount(rest)
  }

  /** Every field is at least one character wide. */
  predicate PositiveWidths(p: Template) {
    match p
    case End => true
    case Lit(_, rest) => PositiveWidths(rest)
    case Field(w, rest) => w >= 1 && PositiveWidths(rest)
  }

  /** The length of the text a template writes when no value overflows its field. */
  function Length(p: Template): nat {
    match p
    case End => 0
    case Lit(text, rest) => |text| + Length(rest)
    case Field(w, rest) => w + Length(rest)
  }

  /** Every value's decimal rendering fits in its field, so padding alone sets its width. */
  predicate Fits(p: Template, vals: seq<nat>)
    requires |vals| == FieldCount(p)
  {
    match p
    case End => true
    case Lit(_, rest) => Fits(rest, vals)
    case Field(w, rest) => |NatToString(vals[0])| <= w && Fits(rest, vals[1..])
  }

  /** `String(n).padStart(width, '0')`. */
  function Pad(n: nat, width: nat): string {
    PadStart(NatToString(n), width, '0')
  }

  /** The text the template literal produces for the given values. */
  function Render(p: Template, vals: seq<nat>): string
    requires |vals| == FieldCount(p)
  {
    match p
    case End => ""
    case Lit(text, rest) => text + Render(rest, vals)
    case Field(w, rest) => Pad(vals[0], w) + Render(rest, vals[1..])
  }

  /** Reads a rendered template back into its values; `None` for any text the
      template cannot have written. */
  function Parse(p: Template, s: string): (r: Option<seq<nat>>)
    ensures r.Some? ==> |r.value| == FieldCount(p)
  {
    match p
    case End => if s == "" then Some([]) else None
    case Lit(text, rest) => if text <= s then Parse(rest, s[|text|..]) else None
    case Field(w, rest) =>
      if |s| >= w && ParseFixed(s[..w], w).Some? then
        match Parse(rest, s[w..])
        case Some(vs) => Some([ParseFixed(s[..w], w).value] + vs)
        case None => None
      else None
  }

  lemma {:induction false} RenderLength(p: Template, vals: seq<nat>)
    requires |vals| == FieldCount(p) && Fits(p, vals)
    ensures |Render(p, vals)| == Length(p)
  {
    match p
    case End =>
    case Lit(_, rest) => RenderLength(rest, vals);
    case Field(_, rest) => RenderLength(rest, vals[1..]);
  }

  /** Parsing past a literal consumes exactly that literal. */
  lemma ParseLit(text: string, rest: Template, r: string)
    ensures Parse(Lit(text, rest), text + r) == Parse(rest, r)
  {
    assert (text + r)[|text|..] == r;
  }

  /** Parsing past a field reads back the padded value that fills it. */
  lemma ParseField(w: nat, rest: Template, v: nat, r: string)
    requires |NatToString(v)| <= w
    ensures Parse(Field(w, rest), Pad(v, w) + r)
            == if Parse(rest, r).Some? then Some([v] + Parse(rest, r).value) else None
  {
    var s := Pad(v, w) + r;
    assert s[..w] == Pad(v, w);
    assert s[w..] == r;
    PaddedRoundTrip(v, w);
  }

  /** Values that fit their fields are recovered from the rendered text. */
  lemma {:induction false} RenderParse(p: Template, vals: seq<nat>)
    requires |vals| == FieldCount(p) && Fits(p, vals)
    ensures Parse(p, Render(p, vals)) == Some(vals)
  {
    match p
    case End =>
    case Lit(text, rest) =>
      RenderParse(rest, vals);
      ParseLit(text, rest, Render(rest, vals));
    case Field(w, rest) =>
      RenderParse(rest, vals[1..]);
      ParseField(w, rest, vals[0], Render(rest, vals[1..]));
      assert vals == [vals[0]] + vals[1..];
  }

  /** A field that parses is read from its first `w` characters, and the
      rest of the template from what follows them. */
  lemma ParsedField(w: nat, rest: Template, s: string)
    requires Parse(Field(w, rest), s).Some?
    ensures |s| >= w && ParseFixed(s[..w], w).Some? && Parse(rest, s[w..]).Some?
    ensures Parse(Field(w, rest), s).value == [DigitsValue(s[..w])] + Parse(rest, s[w..]).value
  {
  }

  /** A field followed by the rest of a template renders the padded value
      and then the rest, and fits when both parts fit. */
  lemma RenderField(w: nat, rest: Template, v: nat, vs: seq<nat>)
    requires |vs| == FieldCount(rest)
    ensures Render(Field(w, rest), [v] + vs) == Pad(v, w) + Render(rest, vs)
    ensures Fits(Field(w, rest), [v] + vs) <==> |NatToString(v)| <= w && Fits(rest, vs)
  {
    assert ([v] + vs)[1..] == vs;
  }

  /** A digit field followed by the rendering of the rest of a template is
      the rendering of the whole template. */
  lemma RenderFieldOfDigits(w: nat, rest: Template, head: string, vs: seq<nat>)
    requires w >= 1 && ParseFixed(head, w).Some?
    requires |vs| == FieldCount(rest) && Fits(rest, vs)
    ensures Fits(Field(w, rest), [DigitsValue(head)] + vs)
    ensures Render(Field(w, rest), [DigitsValue(head)] + vs) == head + Render(rest, vs)
  {
    FixedIsPadded(head, w);
    RenderField(w, rest, DigitsValue(head), vs);
  }

  /** Whatever a template with positive widths parses is its rendering of the
      values it returns, and those values fit their fields. */
  lemma {:induction false} ParseRender(p: Template, s: string)
    requires PositiveWidths(p) && Parse(p, s).Some?
    ensures Fits(p, Parse(p, s).value)
    ensures Render(p, Parse(p, s).value) == s
    decreases p, 1
  {
    match p
    case End =>
    case Lit(text, rest) => ParseRenderLit(text, rest, s);
    case Field(w, rest) => ParseRenderField(w, rest, s);
  }

  /** `ParseRender` for a template that starts with a literal. */
  lemma {:induction false} ParseRenderLit(text: string, rest: Template, s: string)
    requires PositiveWidths(rest) && Parse(Lit(text, rest), s).Some?
    ensures Fits(Lit(text, rest), Parse(Lit(text, rest), s).value)
    ensures Render(Lit(text, rest), Parse(Lit(text, rest), s).value) == s
    decreases Lit(text, rest), 0
  {
    ParseRender(rest, s[|text|..]);
    assert s == text + s[|text|..];
  }

  /** `ParseRender` for a template that starts with a field. */
  lemma {:induction false} ParseRenderField(w: nat, rest: Template, s: string)
    requires w >= 1 && PositiveWidths(rest) && Parse(Field(w, rest), s).Some?
    ensures Fits(Field(w, rest), Parse(Field(w, rest), s).value)
    ensures Render(Field(w, rest), Parse(Field(w, rest), s).value) == s
    decreases Field(w, rest), 0
  {
    var head, tail := s[..w], s[w..];
    assert s == head + tail;
    ParsedField(w, rest, s);
    var vs := Parse(rest, tail).value;
    assert Parse(Field(w, rest), s).value == [DigitsValue(head)] + vs;
    assert Fits(rest, vs) && Render(rest, vs) == tail by {
      ParseRender(rest, tail);
    }
    RenderFieldOfDigits(w, rest, head, vs);
  }

  /** `-MM-DD`: what the day folder adds after the unpadded year. */
  const DayTemplate: Template := Lit("-", Field(2, Lit("-", Field(2, End))))

  /** `_HH-MM-SS-mmm.json`: what the file name adds after the day folder. */
  const TimeTemplate: Template :=
    Lit("_", Field(2, Lit("-", Field(2, Lit("-", Field(2, Lit("-", Field(3, Lit(".json", End)))))))))

  function DayValues(c: Clock): (vals: seq<nat>)
    ensures |vals| == FieldCount(DayTemplate)
  {
    [c.month, c.day]
  }

  function TimeValues(c: Clock): (vals: seq<nat>)
    ensures |vals| == FieldCount(TimeTemplate)
  {
    [c.hours, c.minutes, c.seconds, c.millis]
  }

  datatype Names = Names(dateFolder: string, fileName: string)

  /** The pair `getFormattedDateTime` returns: `year-MM-DD` and
      `year-MM-DD_HH-MM-SS-mmm.json`, the year as `String` renders it. */
  function FormattedDateTime(c: Clock): (r: Names)
    ensures r.dateFolder <= r.fileName
    ensures r.fileName[|r.dateFolder|..] == Render(TimeTemplate, TimeValues(c))
  {
    var folder := IntToString(c.year) + Render(DayTemplate, DayValues(c));
    Names(folder, folder + Render(TimeTemplate, TimeValues(c)))
  }

  /** Month and day of a valid reading take at most two digits. */
  lemma DayFits(c: Clock)
    requires ValidClock(c)
    ensures Fits(DayTemplate, DayValues(c))
  {
    RenderingWidth(c.month);
    RenderingWidth(c.day);
    var dv := DayValues(c);
    assert Fits(Field(2, End), dv[1..]);
    assert Fits(Field(2, Lit("-", Field(2, End))), dv);
  }

  /** Hours, minutes and seconds of a valid reading take at most two digits,
      milliseconds at most three. */
  lemma TimeFits(c: Clock)
    requires ValidClock(c)
    ensures Fits(TimeTemplate, TimeValues(c))
  {
    RenderingWidth(c.hours);
    RenderingWidth(c.minutes);
    RenderingWidth(c.seconds);
    RenderingWidth(c.millis);
    var tv := TimeValues(c);
    assert Fits(Field(3, Lit(".json", End)), tv[3..]);
    assert Fits(Field(2, Lit("-", Field(3, Lit(".json", End)))), tv[2..]);
    assert Fits(Field(2, Lit("-", Field(2, Lit("-", Field(3, Lit(".json", End)))))), tv[1..]);
    assert Fits(Field(2, Lit("-", Field(2, Lit("-", Field(2, Lit("-", Field(3, Lit(".json", End)))))))), tv);
  }

  /** The day part of a valid reading's names is six characters long. */
  lemma DayWidth(c: Clock)
    requires ValidClock(c)
    ensures Fits(DayTemplate, DayValues(c)) && |Render(DayTemplate, DayValues(c))| == 6
  {
    DayFits(c);
    RenderLength(DayTemplate, DayValues(c));
    assert Length(DayTemplate) == 6;
  }

  /** The time part of a valid reading's file name is eighteen characters long. */
  lemma TimeWidth(c: Clock)
    requires ValidClock(c)
    ensures Fits(TimeTemplate, TimeValues(c)) && |Render(TimeTemplate, TimeValues(c))| == 18
  {
    TimeFits(c);
    RenderLength(TimeTemplate, TimeValues(c));
    assert Length(TimeTemplate) == 18;
  }

  /** The reading that a parsed year, day fields and time fields denote,
      when they form a valid one. */
  function Assemble(year: Option<int>, day: Option<seq<nat>>, time: Option<seq<nat>>): (r: Option<Clock>)
    ensures r.Some? ==> ValidClock(r.value)
    ensures r.Some? ==> year == Some(r.value.year) && day == Some(DayValues(r.value)) && time == Some(TimeValues(r.value))
  {
    if year.Some? && day.Some? && |day.value| == 2 && time.Some? && |time.value| == 4 then
      var d := day.value;
      var t := time.value;
      var c := Clock(year.value, d[0], d[1], t[0], t[1], t[2], t[3]);
      assert d == [d[0], d[1]] && t == [t[0], t[1], t[2], t[3]];
      if ValidClock(c) then Some(c) else None
    else None
  }

  /** A valid reading is assembled back from its own parts. */
  lemma AssembleParts(c: Clock)
    requires ValidClock(c)
    ensures Assemble(Some(c.year), Some(DayValues(c)), Some(TimeValues(c))) == Some(c)
  {
  }

  /** Reads a file name back into the clock reading that produced it; `None`
      for any string `FormattedDateTime` never writes for a valid reading. */
  function ParseFileName(s: string): Option<Clock> {
    if |s| < 25 then None
    else Assemble(ParseInt(s[..|s| - 24]), Parse(DayTemplate, s[|s| - 24..|s| - 18]), Parse(TimeTemplate, s[|s| - 18..]))
  }

  /** A name made of a year, six characters of day fields and eighteen of
      time fields is read part by part. */
  lemma ParseJoinedName(y: string, d: string, t: string)
    requires |y| >= 1 && |d| == 6 && |t| == 18
    ensures ParseFileName(y + d + t) == Assemble(ParseInt(y), Parse(DayTemplate, d), Parse(TimeTemplate, t))
  {
    var s := y + d + t;
    assert s[..|s| - 24] == y;
    assert s[|s| - 24..|s| - 18] == d;
    assert s[|s| - 18..] == t;
  }

  /** The file name of a valid reading reads back to that reading. */
  lemma FileNameRoundTrip(c: Clock)
    requires ValidClock(c)
    ensures ParseFileName(FormattedDateTime(c).fileName) == Some(c)
  {
    var y := IntToString(c.year);
    var d := Render(DayTemplate, DayValues(c));
    var t := Render(TimeTemplate, TimeValues(c));
    DayWidth(c);
    TimeWidth(c);
    assert FormattedDateTime(c).fileName == y + d + t;
    ParseJoinedName(y, d, t);
    IntToStringRoundTrip(c.year);
    RenderParse(DayTemplate, DayValues(c));
    RenderParse(TimeTemplate, TimeValues(c));
    AssembleParts(c);
  }

  /** Every name `ParseFileName` accepts is the file name of the reading it
      returns: with `FileNameRoundTrip`, file names and valid readings are in
      one-to-one correspondence. */
  lemma ParsedNameIsFileName(s: string)
    requires ParseFileName(s).Some?
    ensures ValidClock(ParseFileName(s).value)
    ensures FormattedDateTime(ParseFileName(s).value).fileName == s
  {
    var c := ParseFileName(s).value;
    var y := s[..|s| - 24];
    var d := s[|s| - 24..|s| - 18];
    var t := s[|s| - 18..];
    assert s == y + d + t;
    ParseJoinedName(y, d, t);
    ParsedIntIsRendering(y);
    ParseRender(DayTemplate, d);
    ParseRender(TimeTemplate, t);
  }

  /** Two valid readings share a file name only when they agree to the
      millisecond: the naming scheme's only collisions are same-instant ones. */
  lemma FileNamesCollideOnlyAtSameInstant(a: Clock, b: Clock)
    requires ValidClock(a) && ValidClock(b)
    ensures FormattedDateTime(a).fileName == FormattedDateTime(b).fileName <==> a == b
  {
    if FormattedDateTime(a).fileName == FormattedDateTime(b).fileName {
      FileNameRoundTrip(a);
      FileNameRoundTrip(b);
    }
  }

  /** Two valid readings fall in the same day folder exactly when they are on
      the same calendar day. */
  lemma SameFolderIffSameDay(a: Clock, b: Clock)
    requires ValidClock(a) && ValidClock(b)
    ensures FormattedDateTime(a).dateFolder == FormattedDateTime(b).dateFolder
            <==> a.year == b.year && a.month == b.month && a.day == b.day
  {
    if FormattedDateTime(a).dateFolder == FormattedDateTime(b).dateFolder {
      var a' := b.(year := a.year, month := a.month, day := a.day);
      assert ValidClock(a');
      assert TimeValues(a') == TimeValues(b);
      assert FormattedDateTime(a').fileName == FormattedDateTime(b).fileName;
      FileNamesCollideOnlyAtSameInstant(a', b);
    }
  }
}
