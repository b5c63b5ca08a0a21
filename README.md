# PDF write defines of Magick.NET, in Dafny

Magick.NET hands ImageMagick its format options as "defines": (format, name,
value) entries such as `pdf:author`. `PdfWriteDefines` holds eight optional
document properties: author, creation time, creator, keywords, modification
time, producer, subject and title. Its `Defines` getter turns them into the
defines ImageMagick reads when it writes a PDF. This project models that
options object and its getter, and proves which defines appear, with which
values, in which order, and how changing one property shows in the result.

- `pdf_write_defines.dfy` (module `PdfWriteDefines`) holds the model.
  - `Options` is the property bag, with `None` for null.
  - `New` is a freshly constructed object.
  - `Defines` is the getter as a chain of eight conditionals, one per property,
    in declaration order.
  - `SetText` and `SetDate` are the property setters.
  - `HasText` is the C# test `s?.Length > 0`, built from the lifted
    nullable comparison (`NullableLength`, `LiftedGreater`).
  - `Entry`, `Expected` and `Emitted` state the rule property by property,
    over any list of properties. They are the reference definition that the
    getter is proved equal to.
- `pdf_write_defines_properties.dfy` (module `PdfWriteDefinesProperties`)
  proves that `Defines` equals `Expected` over the fixed order. It proves the
  facts about `Expected` by induction and then reads them back on `Defines`.
- `wrappers.dfy` holds the `Option` type.

A date's conversion to Unix epoch seconds depends on the local time zone and
on the .NET runtime. `Defines` therefore takes that conversion as a parameter,
`toUnixTimeSeconds`. Every property is proved for every such conversion.

## Model

| member | source | states |
|---|---|---|
| `PdfWriteDefines.New` | src/Magick.NET/Formats/Pdf/PdfWriteDefines.cs:18-21 | a freshly constructed object holds null in every string and date property |
| `PdfWriteDefines.HasText` | src/Magick.NET/Formats/Pdf/PdfWriteDefines.cs:70 | the lifted test `s?.Length > 0` holds exactly for a non-null, non-empty string; a null string compares false |
| `PdfWriteDefines.Defines` | src/Magick.NET/Formats/Pdf/PdfWriteDefines.cs:66-94 | the getter yields at most eight defines, one per property at most; the rest of its contract is proved in DefinesIsExpected, DefinesString, DefinesDate, DefinesInOrder, DefinesDistinctNames, DefinesEmpty and DefinesFrame |
| `PdfWriteDefines.SetText` | src/Magick.NET/Formats/Pdf/PdfWriteDefines.cs:26-61 | setting a string property stores the given value (null included) and leaves every other property as it was |
| `PdfWriteDefines.SetDate` | src/Magick.NET/Formats/Pdf/PdfWriteDefines.cs:26-61 | setting a date property stores the given value (null included) and leaves every other property as it was |
| `PdfWriteDefinesProperties.SetTextOwnValue` | src/Magick.NET/Formats/Pdf/PdfWriteDefines.cs:26-61 | the string property getter reads back what is stored: setting a property to the value it holds changes nothing |
| `PdfWriteDefinesProperties.SetDateOwnValue` | src/Magick.NET/Formats/Pdf/PdfWriteDefines.cs:26-61 | the date property getter reads back what is stored: setting a property to the value it holds changes nothing |
| `PdfWriteDefines.Rank` | src/Magick.NET/Formats/Pdf/PdfWriteDefines.cs:70-92 | each property has one position in the getter's fixed order, and the order lists that property at that position |
| `PdfWriteDefinesProperties.DefinesIsExpected` | src/Magick.NET/Formats/Pdf/PdfWriteDefines.cs:66-93 | the getter's output equals the property-by-property reference rule applied to author, create-epoch, creator, keywords, modify-epoch, producer, subject, title in that order |
| `PdfWriteDefinesProperties.DefinesString` | src/Magick.NET/Formats/Pdf/PdfWriteDefines.cs:70-92 | a string property's define (author, creator, keywords, producer, subject, title) is present if and only if the property is non-null and non-empty, and its value is then that exact string |
| `PdfWriteDefinesProperties.DefinesDate` | src/Magick.NET/Formats/Pdf/PdfWriteDefines.cs:73-83 | a date property's define (create-epoch, modify-epoch) is present if and only if the date is set, whatever its value, and its value is the epoch seconds of that date |
| `PdfWriteDefinesProperties.DefinesInOrder` | src/Magick.NET/Formats/Pdf/PdfWriteDefines.cs:66-93 | the defines are exactly those of the contributing properties, one each, in the fixed order; the i-th define is named after the i-th contributing property and carries that property's value and no other property's; every define has format pdf |
| `PdfWriteDefinesProperties.DefinesDistinctNames` | src/Magick.NET/Formats/Pdf/PdfWriteDefines.cs:70-92 | no two defines share a name |
| `PdfWriteDefinesProperties.DefinesEmpty` | src/Magick.NET/Formats/Pdf/PdfWriteDefines.cs:70-92 | the getter yields nothing if and only if every string property is null or empty and neither date is set |
| `PdfWriteDefinesProperties.NewDefinesNothing` | src/Magick.NET/Formats/Pdf/PdfWriteDefines.cs:18-21 | a freshly constructed object, with every property null, yields no defines |
| `PdfWriteDefinesProperties.DefinesFrame` | src/Magick.NET/Formats/Pdf/PdfWriteDefines.cs:70-92 | two objects that differ in one property only give the same defines, in the same order, once that property's own define is dropped; every other define's value is unchanged |
| `PdfWriteDefinesProperties.SetTextChangesOnlyItsDefine` | src/Magick.NET/Formats/Pdf/PdfWriteDefines.cs:26-92 | after setting a string property, its define reflects the new value (absent when null or empty) and all other defines are as before |
| `PdfWriteDefinesProperties.SetDateChangesOnlyItsDefine` | src/Magick.NET/Formats/Pdf/PdfWriteDefines.cs:26-92 | after setting a date property, its define reflects the new date (absent when null) and all other defines are as before |
| `PdfWriteDefinesProperties.ExpectedRendersEmitted` | src/Magick.NET/Formats/Pdf/PdfWriteDefines.cs:70-92 | for any list of properties, the reference rule yields one define per contributing property, in list order, named after it and carrying its value; general form over any list of properties, applied to the getter's fixed order by DefinesInOrder |
| `PdfWriteDefinesProperties.EmittedMembers` | src/Magick.NET/Formats/Pdf/PdfWriteDefines.cs:70-92 | a property contributes if and only if it is listed and has a value to emit; general form over any list of properties, applied to the getter's fixed order by DefinesInOrder |
| `PdfWriteDefinesProperties.EmittedRanked` | src/Magick.NET/Formats/Pdf/PdfWriteDefines.cs:70-92 | keeping only the contributing properties preserves the order of the list; general form over any list of properties, applied to the getter's fixed order by DefinesInOrder |
| `PdfWriteDefinesProperties.ExpectedLookup` | src/Magick.NET/Formats/Pdf/PdfWriteDefines.cs:70-92 | for any list of properties, a property's define is found if and only if the property is listed and has a value, and it then holds that value; general form over any list of properties, applied to the getter's fixed order by DefinesString and DefinesDate |
| `PdfWriteDefinesProperties.ExpectedWithout` | src/Magick.NET/Formats/Pdf/PdfWriteDefines.cs:70-92 | dropping a property's define from the output is the same as not listing that property; general form over any list of properties, applied to the getter's fixed order by DefinesFrame |
| `PdfWriteDefinesProperties.ExpectedAgree` | src/Magick.NET/Formats/Pdf/PdfWriteDefines.cs:70-92 | two objects that differ only in a property not listed give the same output; general form over any list of properties, applied to the getter's fixed order by DefinesFrame |

## Left out

- `MagickImageCollectionFactory` (src/Magick.NET/Netstandard21/Factories/MagickImageCollectionFactory.cs) is not part of this model. Each of its methods is a constructor call or an awaited asynchronous read on the native collection, with no logic of its own. The build-time choice of quantum type there is left out too.
- The body of `ToUnixTimeSeconds` (lines 96-105) is not modelled. It converts local time to UTC and relies on .NET `DateTimeOffset`; its NET20 branch truncates a floating-point second count. The model takes the conversion as a parameter and proves its properties for every conversion.
- `CreateDefine` and the `WriteDefinesCreator` base class are not part of this model. A define is modelled as the triple (format pdf, name, value), and the value is either the string or the epoch seconds as an integer. How the native library receives these values is not modelled.
- The `long` result of the conversion is an unbounded integer here. The epoch seconds of any `DateTime` fit in 64 bits, so nothing is lost.
- The getter is a lazy iterator that is re-evaluated on every enumeration. It is modelled as the finite sequence one enumeration yields. The options object is a mutable class; it is modelled as a value, so aliasing between references is not captured.
