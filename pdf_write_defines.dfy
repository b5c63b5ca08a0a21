/**
 * The PDF write options of Magick.NET: eight optional document properties
 * that are turned into the "defines" ImageMagick reads when it writes a PDF.
 *
 * The options object is a plain property bag, so it is modelled as a value
 * (`Options`); a property setter becomes a record update (`SetText`, `SetDate`).
 * The conversion of a date to Unix epoch seconds depends on the local time zone
 * and on the .NET runtime, so it is a parameter of `Defines`.
 */
module PdfWriteDefines {
  import opened Wrappers

  /** The image format a define belongs to; these defines are all "pdf:". */
  datatype MagickFormat = Pdf

  datatype DateTimeKind = Unspecified | Utc | Local

  /** A .NET `DateTime`: a tick count and whether it is local, UTC or unspecified. */
  datatype DateTime = DateTime(ticks: nat, kind: DateTimeKind)

  /** The value of a define: a string, or the `long` made from a date. */
  datatype DefineValue = Text(text: string) | Seconds(seconds: int)

  /** A define as handed to the native library: format, name and value. */
  datatype Define = Define(format: MagickFormat, name: string, value: DefineValue)

  /** The properties of a `PdfWriteDefines` object; `None` is null. */
  datatype Options = Options(
    author: Option<string>,
    creationTime: Option<DateTime>,
    creator: Option<string>,
    keywords: Option<string>,
    modificationTime: Option<DateTime>,
    producer: Option<string>,
    subject: Option<string>,
    title: Option<string>)

  /** A freshly constructed object: every property is null. */
  function New(): (r: Options)
    ensures forall f: Field :: if IsDate(f) then DateOf(r, f).None? else TextOf(r, f).None?
  {
    Options(None, None, None, None, None, None, None, None)
  }

  /** The C# `s?.Length`: null when `s` is null. */
  function NullableLength(s: Option<string>): Option<int>
  {
    match s
    case None => None
    case Some(t) => Some(|t|)
  }

  /** A lifted C# comparison `x > y` on a nullable integer: false when `x` is null. */
  predicate LiftedGreater(x: Option<int>, y: int)
  {
    x.Some? && x.value > y
  }

  /** The C# test `s?.Length > 0`. */
  predicate HasText(s: Option<string>)
    ensures HasText(s) <==> s.Some? && s.value != []
  {
    LiftedGreater(NullableLength(s), 0)
  }

  /** The `Defines` getter: one conditional per property, in declaration order. */
  function Defines(o: Options, toUnixTimeSeconds: DateTime -> int): (r: seq<Define>)
    ensures |r| <= 8
  {
    var author := if HasText(o.author) then [Define(Pdf, "author", Text(o.author.value))] else [];
    var creationTime :=
      if o.creationTime.Some?
      then [Define(Pdf, "create-epoch", Seconds(toUnixTimeSeconds(o.creationTime.value)))]
      else [];
    var creator := if HasText(o.creator) then [Define(Pdf, "creator", Text(o.creator.value))] else [];
    var keywords := if HasText(o.keywords) then [Define(Pdf, "keywords", Text(o.keywords.value))] else [];
    var modificationTime :=
      if o.modificationTime.Some?
      then [Define(Pdf, "modify-epoch", Seconds(toUnixTimeSeconds(o.modificationTime.value)))]
      else [];
    var producer := if HasText(o.producer) then [Define(Pdf, "producer", Text(o.producer.value))] else [];
    var subject := if HasText(o.subject) then [Define(Pdf, "subject", Text(o.subject.value))] else [];
    var title := if HasText(o.title) then [Define(Pdf, "title", Text(o.title.value))] else [];
    assert |author| <= 1 && |creationTime| <= 1 && |creator| <= 1 && |keywords| <= 1;
    assert |modificationTime| <= 1 && |producer| <= 1 && |subject| <= 1 && |title| <= 1;
    author + creationTime + creator + keywords + modificationTime + producer + subject + title
  }

  // ---------------------------------------------------------------------------
  // Properties by name, so that the rules can be stated once for all of them.

  datatype Field = Author | CreationTime | Creator | Keywords | ModificationTime | Producer | Subject | Title

  predicate IsDate(f: Field)
  {
    f == CreationTime || f == ModificationTime
  }

  /** The order in which the getter considers the properties. */
  const Order: seq<Field> := [Author, CreationTime, Creator, Keywords, ModificationTime, Producer, Subject, Title]

  /** The position of a property in `Order`. */
  function Rank(f: Field): (r: nat)
    ensures r < |Order| && Order[r] == f
  {
    match f
    case Author => 0
    case CreationTime => 1
    case Creator => 2
    case Keywords => 3
    case ModificationTime => 4
    case Producer => 5
    case Subject => 6
    case Title => 7
  }

  /** The name of the define a property produces. */
  function Name(f: Field): string
  {
    match f
    case Author => "author"
    case CreationTime => "create-epoch"
    case Creator => "creator"
    case Keywords => "keywords"
    case ModificationTime => "modify-epoch"
    case Producer => "producer"
    case Subject => "subject"
    case Title => "title"
  }

  /** The getter of a string property. */
  function TextOf(o: Options, f: Field): Option<string>
    requires !IsDate(f)
  {
    match f
    case Author => o.author
    case Creator => o.creator
    case Keywords => o.keywords
    case Producer => o.producer
    case Subject => o.subject
    case Title => o.title
  }

  /** The getter of a date property. */
  function DateOf(o: Options, f: Field): Option<DateTime>
    requires IsDate(f)
  {
    if f == CreationTime then o.creationTime else o.modificationTime
  }

  /** The setter of a string property. */
  function SetText(o: Options, f: Field, v: Option<string>): (r: Options)
    requires !IsDate(f)
    ensures TextOf(r, f) == v
    ensures AgreeExcept(o, r, f)
  {
    match f
    case Author => o.(author := v)
    case Creator => o.(creator := v)
    case Keywords => o.(keywords := v)
    case Producer => o.(producer := v)
    case Subject => o.(subject := v)
    case Title => o.(title := v)
  }

  /** The setter of a date property. */
  function SetDate(o: Options, f: Field, v: Option<DateTime>): (r: Options)
    requires IsDate(f)
    ensures DateOf(r, f) == v
    ensures AgreeExcept(o, r, f)
  {
    if f == CreationTime then o.(creationTime := v) else o.(modificationTime := v)
  }

  /** `o` and `o'` hold the same value in every property except possibly `f`. */
  predicate AgreeExcept(o: Options, o': Options, f: Field)
  {
    forall g: Field :: g != f ==>
      if IsDate(g) then DateOf(o, g) == DateOf(o', g) else TextOf(o, g) == TextOf(o', g)
  }

  // ---------------------------------------------------------------------------
  // The reference rule, property by property.

  /**
   * What one property contributes: a string property its own text when that
   * text is non-null and non-empty, a date property its epoch seconds when it
   * is set, and nothing otherwise.
   */
  function Entry(o: Options, toUnixTimeSeconds: DateTime -> int, f: Field): Option<DefineValue>
  {
    if IsDate(f) then
      (match DateOf(o, f)
       case None => None
       case Some(d) => Some(Seconds(toUnixTimeSeconds(d))))
    else if HasText(TextOf(o, f)) then Some(Text(TextOf(o, f).value))
    else None
  }

  /** The define one property contributes, as a list of zero or one. */
  function Piece(o: Options, toUnixTimeSeconds: DateTime -> int, f: Field): seq<Define>
  {
    match Entry(o, toUnixTimeSeconds, f)
    case None => []
    case Some(v) => [Define(Pdf, Name(f), v)]
  }

  /** The defines the properties `fs` contribute, in the order of `fs`. */
  function Expected(o: Options, toUnixTimeSeconds: DateTime -> int, fs: seq<Field>): seq<Define>
  {
    if fs == [] then []
    else Piece(o, toUnixTimeSeconds, fs[0]) + Expected(o, toUnixTimeSeconds, fs[1..])
  }

  /** The properties of `fs` that contribute a define, in the order of `fs`. */
  function Emitted(o: Options, toUnixTimeSeconds: DateTime -> int, fs: seq<Field>): seq<Field>
  {
    if fs == [] then []
    else (if Entry(o, toUnixTimeSeconds, fs[0]).Some? then [fs[0]] else []) + Emitted(o, toUnixTimeSeconds, fs[1..])
  }
}
