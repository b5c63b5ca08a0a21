/**
 * What the `Defines` getter promises: which defines appear, with which values,
 * in which order, and how a change to one property shows in the result.
 *
 * The getter is first shown equal to the reference rule `Expected` applied to
 * `Order`; the facts about `Expected` are proved once, by induction over any
 * list of properties, and then read back on `Defines`.
 */
module PdfWriteDefinesProperties {
  import opened Wrappers
  import opened PdfWriteDefines

  /** The properties in `fs` come in strictly increasing position of `Order`. */
  predicate Ranked(fs: seq<Field>)
  {
    forall i, j :: 0 <= i < j < |fs| ==> Rank(fs[i]) < Rank(fs[j])
  }

  /** The value of the first define named `name`, if any. */
  function Lookup(ds: seq<Define>, name: string): Option<DefineValue>
  {
    if ds == [] then None
    else if ds[0].name == name then Some(ds[0].value)
    else Lookup(ds[1..], name)
  }

  /** `ds` without its defines named `name`. */
  function Without(ds: seq<Define>, name: string): seq<Define>
  {
    if ds == [] then []
    else (if ds[0].name == name then [] else [ds[0]]) + Without(ds[1..], name)
  }

  /** `fs` without the property `f`. */
  function Remove(fs: seq<Field>, f: Field): seq<Field>
  {
    if fs == [] then []
    else (if fs[0] == f then [] else [fs[0]]) + Remove(fs[1..], f)
  }

  /** Each property has its own define name. */
  lemma NamesDistinct(f: Field, g: Field)
    ensures Name(f) == Name(g) ==> f == g
  {
  }

  /** Writing back the value a string property holds changes nothing. */
  lemma SetTextOwnValue(o: Options, f: Field)
    requires !IsDate(f)
    ensures SetText(o, f, TextOf(o, f)) == o
  {
  }

  /** Writing back the value a date property holds changes nothing. */
  lemma SetDateOwnValue(o: Options, f: Field)
    requires IsDate(f)
    ensures SetDate(o, f, DateOf(o, f)) == o
  {
  }

  // ---------------------------------------------------------------------------
  // The getter is the reference rule applied to the properties in order.

  /** The getter's chain of conditionals is the reference rule applied to `Order`. */
  lemma DefinesIsExpected(o: Options, toUnixTimeSeconds: DateTime -> int)
    ensures Defines(o, toUnixTimeSeconds) == Expected(o, toUnixTimeSeconds, Order)
  {
    ExpectedOnOrder(o, toUnixTimeSeconds);
    DefinesByPieces(o, toUnixTimeSeconds);
  }

  /** The reference rule over `Order`, unfolded property by property. */
  lemma ExpectedOnOrder(o: Options, c: DateTime -> int)
    ensures Expected(o, c, Order)
         == Piece(o, c, Author) + (Piece(o, c, CreationTime) + (Piece(o, c, Creator) + (Piece(o, c, Keywords)
          + (Piece(o, c, ModificationTime) + (Piece(o, c, Producer) + (Piece(o, c, Subject) + Piece(o, c, Title)))))))
  {
    ExpectedOnEight(o, c, Order);
  }

  /** The reference rule over any eight properties, unfolded. */
  lemma ExpectedOnEight(o: Options, c: DateTime -> int, fs: seq<Field>)
    requires |fs| == 8
    ensures Expected(o, c, fs)
         == Piece(o, c, fs[0]) + (Piece(o, c, fs[1]) + (Piece(o, c, fs[2]) + (Piece(o, c, fs[3])
          + (Piece(o, c, fs[4]) + (Piece(o, c, fs[5]) + (Piece(o, c, fs[6]) + Piece(o, c, fs[7])))))))
  {
    assert fs[8..] == [] && fs[0..] == fs;
    ExpectedCons(o, c, fs, 7);
    var e7 := Expected(o, c, fs[7..]);
    assert e7 == Piece(o, c, fs[7]);
    ExpectedCons(o, c, fs, 6);
    var e6 := Expected(o, c, fs[6..]);
    assert e6 == Piece(o, c, fs[6]) + e7;
    ExpectedCons(o, c, fs, 5);
    var e5 := Expected(o, c, fs[5..]);
    assert e5 == Piece(o, c, fs[5]) + e6;
    ExpectedCons(o, c, fs, 4);
    var e4 := Expected(o, c, fs[4..]);
    assert e4 == Piece(o, c, fs[4]) + e5;
    ExpectedCons(o, c, fs, 3);
    var e3 := Expected(o, c, fs[3..]);
    assert e3 == Piece(o, c, fs[3]) + e4;
    ExpectedCons(o, c, fs, 2);
    var e2 := Expected(o, c, fs[2..]);
    assert e2 == Piece(o, c, fs[2]) + e3;
    ExpectedCons(o, c, fs, 1);
    var e1 := Expected(o, c, fs[1..]);
    assert e1 == Piece(o, c, fs[1]) + e2;
    ExpectedCons(o, c, fs, 0);
  }

  /** The getter is the concatenation of each property's piece. */
  lemma DefinesByPieces(o: Options, c: DateTime -> int)
    ensures Defines(o, c)
         == Piece(o, c, Author) + (Piece(o, c, CreationTime) + (Piece(o, c, Creator) + (Piece(o, c, Keywords)
          + (Piece(o, c, ModificationTime) + (Piece(o, c, Producer) + (Piece(o, c, Subject) + Piece(o, c, Title)))))))
  {
    TextPiece(o, c, Author);
    DatePiece(o, c, CreationTime);
    TextPiece(o, c, Creator);
    TextPiece(o, c, Keywords);
    DatePiece(o, c, ModificationTime);
    TextPiece(o, c, Producer);
    TextPiece(o, c, Subject);
    TextPiece(o, c, Title);
    ConcatRight(Piece(o, c, Author), Piece(o, c, CreationTime), Piece(o, c, Creator), Piece(o, c, Keywords),
      Piece(o, c, ModificationTime), Piece(o, c, Producer), Piece(o, c, Subject), Piece(o, c, Title));
  }

  /** A string property's piece, as the getter writes it. */
  lemma TextPiece(o: Options, c: DateTime -> int, f: Field)
    requires !IsDate(f)
    ensures Piece(o, c, f) == if HasText(TextOf(o, f)) then [Define(Pdf, Name(f), Text(TextOf(o, f).value))] else []
  {
  }

  /** A date property's piece, as the getter writes it. */
  lemma DatePiece(o: Options, c: DateTime -> int, f: Field)
    requires IsDate(f)
    ensures Piece(o, c, f) == if DateOf(o, f).Some? then [Define(Pdf, Name(f), Seconds(c(DateOf(o, f).value)))] else []
  {
  }

  /** Regrouping eight concatenations to the right. */
  lemma ConcatRight<T>(p0: seq<T>, p1: seq<T>, p2: seq<T>, p3: seq<T>, p4: seq<T>, p5: seq<T>, p6: seq<T>, p7: seq<T>)
    ensures p0 + p1 + p2 + p3 + p4 + p5 + p6 + p7 == p0 + (p1 + (p2 + (p3 + (p4 + (p5 + (p6 + p7))))))
  {
  }

  /** `Expected` over a suffix of a list, one step unfolded. */
  lemma ExpectedCons(o: Options, c: DateTime -> int, fs: seq<Field>, k: nat)
    requires k < |fs|
    ensures Expected(o, c, fs[k..]) == Piece(o, c, fs[k]) + Expected(o, c, fs[k + 1..])
  {
    assert fs[k..][1..] == fs[k + 1..];
  }

  // ---------------------------------------------------------------------------
  // The reference rule, over any list of properties.

  /**
   * The defines produced are those of the contributing properties, one each,
   * in the same order: the i-th define is named after the i-th contributing
   * property and carries that property's entry.
   */
  lemma {:induction false} ExpectedRendersEmitted(o: Options, c: DateTime -> int, fs: seq<Field>)
    ensures var r, e := Expected(o, c, fs), Emitted(o, c, fs);
      && |r| == |e|
      && forall i :: 0 <= i < |r| ==>
           r[i].format == Pdf && r[i].name == Name(e[i]) && Entry(o, c, e[i]) == Some(r[i].value)
  {
    if fs != [] {
      ExpectedRendersEmitted(o, c, fs[1..]);
      var r, e := Expected(o, c, fs), Emitted(o, c, fs);
      var rt, et := Expected(o, c, fs[1..]), Emitted(o, c, fs[1..]);
      if Entry(o, c, fs[0]).Some? {
        assert r == [Define(Pdf, Name(fs[0]), Entry(o, c, fs[0]).value)] + rt;
        assert e == [fs[0]] + et;
        forall i | 1 <= i < |r|
          ensures r[i].format == Pdf && r[i].name == Name(e[i]) && Entry(o, c, e[i]) == Some(r[i].value)
        {
          assert r[i] == rt[i - 1] && e[i] == et[i - 1];
        }
      } else {
        assert r == rt && e == et;
      }
    }
  }

  /** A property contributes exactly when it is listed and has an entry. */
  lemma {:induction false} EmittedMembers(o: Options, c: DateTime -> int, fs: seq<Field>)
    ensures forall g :: g in Emitted(o, c, fs) <==> g in fs && Entry(o, c, g).Some?
  {
    if fs != [] {
      EmittedMembers(o, c, fs[1..]);
      assert forall g :: g in fs <==> g == fs[0] || g in fs[1..];
    }
  }

  /** Filtering keeps the order of the list. */
  lemma {:induction false} EmittedRanked(o: Options, c: DateTime -> int, fs: seq<Field>)
    requires Ranked(fs)
    ensures Ranked(Emitted(o, c, fs))
  {
    if fs != [] {
      RankedTail(fs);
      EmittedRanked(o, c, fs[1..]);
      EmittedMembers(o, c, fs[1..]);
      var et := Emitted(o, c, fs[1..]);
      if Entry(o, c, fs[0]).Some? {
        assert Emitted(o, c, fs) == [fs[0]] + et;
        RankedCons(fs[0], et);
      } else {
        assert Emitted(o, c, fs) == et;
      }
    }
  }

  /** The rest of a ranked list is ranked, and ranked after its head. */
  lemma RankedTail(fs: seq<Field>)
    requires Ranked(fs) && fs != []
    ensures Ranked(fs[1..])
    ensures forall g :: g in fs[1..] ==> Rank(fs[0]) < Rank(g)
  {
    forall i, j | 0 <= i < j < |fs[1..]| ensures Rank(fs[1..][i]) < Rank(fs[1..][j]) {
      assert fs[1..][i] == fs[i + 1] && fs[1..][j] == fs[j + 1];
    }
    forall g | g in fs[1..] ensures Rank(fs[0]) < Rank(g) {
      var m :| 0 <= m < |fs[1..]| && fs[1..][m] == g;
      assert fs[m + 1] == g;
    }
  }

  /** A property ranked before every element of a ranked list extends it. */
  lemma RankedCons(f: Field, gs: seq<Field>)
    requires Ranked(gs)
    requires forall g :: g in gs ==> Rank(f) < Rank(g)
    ensures Ranked([f] + gs)
  {
    var e := [f] + gs;
    forall i, j | 0 <= i < j < |e| ensures Rank(e[i]) < Rank(e[j]) {
      assert e[j] == gs[j - 1];
      if i > 0 {
        assert e[i] == gs[i - 1];
      }
    }
  }

  /** A property's define is found exactly when the property is listed and has an entry. */
  lemma {:induction false} ExpectedLookup(o: Options, c: DateTime -> int, fs: seq<Field>, f: Field)
    ensures Lookup(Expected(o, c, fs), Name(f)) == if f in fs then Entry(o, c, f) else None
  {
    if fs != [] {
      ExpectedLookup(o, c, fs[1..], f);
      NamesDistinct(fs[0], f);
      var head, tail := Piece(o, c, fs[0]), Expected(o, c, fs[1..]);
      assert Expected(o, c, fs) == head + tail;
      assert f in fs <==> f == fs[0] || f in fs[1..];
      if head == [] {
        assert head + tail == tail;
      } else {
        assert (head + tail)[1..] == tail;
      }
    }
  }

  /** Dropping a property's define is the same as not listing the property. */
  lemma {:induction false} ExpectedWithout(o: Options, c: DateTime -> int, fs: seq<Field>, f: Field)
    ensures Without(Expected(o, c, fs), Name(f)) == Expected(o, c, Remove(fs, f))
  {
    if fs != [] {
      ExpectedWithout(o, c, fs[1..], f);
      NamesDistinct(fs[0], f);
      var head, tail := Piece(o, c, fs[0]), Expected(o, c, fs[1..]);
      assert Expected(o, c, fs) == head + tail;
      WithoutConcat(head, tail, Name(f));
      var rest := Remove(fs[1..], f);
      if fs[0] == f {
        assert Remove(fs, f) == rest;
        assert Without(head, Name(f)) == [] by {
          if head != [] {
            assert head[1..] == [];
          }
        }
      } else {
        assert Remove(fs, f) == [fs[0]] + rest;
        assert ([fs[0]] + rest)[1..] == rest;
        assert Expected(o, c, Remove(fs, f)) == head + Expected(o, c, rest);
        assert Without(head, Name(f)) == head by {
          if head != [] {
            assert head[1..] == [];
          }
        }
      }
    }
  }

  /** `Without` distributes over concatenation. */
  lemma {:induction false} WithoutConcat(a: seq<Define>, b: seq<Define>, name: string)
    ensures Without(a + b, name) == Without(a, name) + Without(b, name)
  {
    if a != [] {
      WithoutConcat(a[1..], b, name);
      assert (a + b)[1..] == a[1..] + b;
    } else {
      assert a + b == b;
    }
  }

  /** `Remove(fs, f)` no longer lists `f`. */
  lemma {:induction false} RemoveDropsField(fs: seq<Field>, f: Field)
    ensures f !in Remove(fs, f)
  {
    if fs != [] {
      RemoveDropsField(fs[1..], f);
    }
  }

  /** Two option sets that agree off `f` give the same defines for lists without `f`. */
  lemma {:induction false} ExpectedAgree(o: Options, o': Options, c: DateTime -> int, fs: seq<Field>, f: Field)
    requires AgreeExcept(o, o', f)
    requires f !in fs
    ensures Expected(o, c, fs) == Expected(o', c, fs)
  {
    if fs != [] {
      ExpectedAgree(o, o', c, fs[1..], f);
      assert fs[0] != f;
      assert Entry(o, c, fs[0]) == Entry(o', c, fs[0]);
    }
  }

  // ---------------------------------------------------------------------------
  // The getter's promises.

  /**
   * A string property's define is present exactly when the property is
   * non-null and non-empty, and then its value is the property's text.
   */
  lemma DefinesString(o: Options, c: DateTime -> int, f: Field)
    requires !IsDate(f)
    ensures Lookup(Defines(o, c), Name(f))
         == if TextOf(o, f).Some? && |TextOf(o, f).value| > 0 then Some(Text(TextOf(o, f).value)) else None
  {
    DefinesIsExpected(o, c);
    ExpectedLookup(o, c, Order, f);
  }

  /**
   * A date property's define is present exactly when the property is set,
   * whatever its value, and its value is that date's epoch seconds.
   */
  lemma DefinesDate(o: Options, c: DateTime -> int, f: Field)
    requires IsDate(f)
    ensures Lookup(Defines(o, c), Name(f))
         == if DateOf(o, f).Some? then Some(Seconds(c(DateOf(o, f).value))) else None
  {
    DefinesIsExpected(o, c);
    ExpectedLookup(o, c, Order, f);
  }

  /**
   * The defines are those of the contributing properties, taken in the fixed
   * order author, create-epoch, creator, keywords, modify-epoch, producer,
   * subject, title; each is named after its own property and carries exactly
   * that property's entry (a date define the conversion of its own date).
   */
  lemma DefinesInOrder(o: Options, c: DateTime -> int)
    ensures var r, e := Defines(o, c), Emitted(o, c, Order);
      && |r| == |e|
      && Ranked(e)
      && (forall f :: f in e <==> Entry(o, c, f).Some?)
      && forall i :: 0 <= i < |r| ==>
           r[i].format == Pdf && r[i].name == Name(e[i]) && Entry(o, c, e[i]) == Some(r[i].value)
  {
    var r := Defines(o, c);
    DefinesIsExpected(o, c);
    OrderRanked();
    ExpectedInOrder(o, c, Order, r);
    forall f ensures f in Order {
      OrderComplete(f);
    }
  }

  /** Every property is in `Order`. */
  lemma OrderComplete(f: Field)
    ensures f in Order
  {
    assert Order[Rank(f)] == f;
  }

  /** `Order` lists the properties by increasing position. */
  lemma OrderRanked()
    ensures Ranked(Order)
  {
    forall i | 0 <= i < |Order| ensures Rank(Order[i]) == i {
      if i == 0 {} else if i == 1 {} else if i == 2 {} else if i == 3 {}
      else if i == 4 {} else if i == 5 {} else if i == 6 {} else {}
    }
  }

  /** `DefinesInOrder` for any ranked list of properties. */
  lemma ExpectedInOrder(o: Options, c: DateTime -> int, fs: seq<Field>, r: seq<Define>)
    requires Ranked(fs)
    requires r == Expected(o, c, fs)
    ensures var e := Emitted(o, c, fs);
      && |r| == |e|
      && Ranked(e)
      && (forall f :: f in e <==> f in fs && Entry(o, c, f).Some?)
      && forall i :: 0 <= i < |r| ==>
           r[i].format == Pdf && r[i].name == Name(e[i]) && Entry(o, c, e[i]) == Some(r[i].value)
  {
    ExpectedRendersEmitted(o, c, fs);
    EmittedMembers(o, c, fs);
    EmittedRanked(o, c, fs);
  }

  /** No two defines share a name. */
  lemma DefinesDistinctNames(o: Options, c: DateTime -> int)
    ensures var r := Defines(o, c);
      forall i, j :: 0 <= i < j < |r| ==> r[i].name != r[j].name
  {
    DefinesInOrder(o, c);
    var r, e := Defines(o, c), Emitted(o, c, Order);
    forall i, j | 0 <= i < j < |r| ensures r[i].name != r[j].name {
      NamesDistinct(e[i], e[j]);
    }
  }

  /** Nothing is emitted exactly when every string is null or empty and no date is set. */
  lemma DefinesEmpty(o: Options, c: DateTime -> int)
    ensures Defines(o, c) == [] <==>
      && (o.author.None? || o.author.value == [])
      && o.creationTime.None?
      && (o.creator.None? || o.creator.value == [])
      && (o.keywords.None? || o.keywords.value == [])
      && o.modificationTime.None?
      && (o.producer.None? || o.producer.value == [])
      && (o.subject.None? || o.subject.value == [])
      && (o.title.None? || o.title.value == [])
  {
  }

  /** A freshly constructed object yields no defines, whatever the date conversion. */
  lemma NewDefinesNothing(c: DateTime -> int)
    ensures Defines(New(), c) == []
  {
  }

  /**
   * Changing one property leaves every other define, and the order of the
   * others, as it was: only that property's own define can differ.
   */
  lemma DefinesFrame(o: Options, o': Options, c: DateTime -> int, f: Field)
    requires AgreeExcept(o, o', f)
    ensures Without(Defines(o, c), Name(f)) == Without(Defines(o', c), Name(f))
    ensures forall g :: g != f ==> Lookup(Defines(o, c), Name(g)) == Lookup(Defines(o', c), Name(g))
  {
    DefinesIsExpected(o, c);
    DefinesIsExpected(o', c);
    ExpectedFrame(o, o', c, Order, f, Defines(o, c), Defines(o', c));
  }

  /** `DefinesFrame` for any list of properties. */
  lemma ExpectedFrame(o: Options, o': Options, c: DateTime -> int, fs: seq<Field>, f: Field, r: seq<Define>, r': seq<Define>)
    requires AgreeExcept(o, o', f)
    requires r == Expected(o, c, fs) && r' == Expected(o', c, fs)
    ensures Without(r, Name(f)) == Without(r', Name(f))
    ensures forall g :: g != f ==> Lookup(r, Name(g)) == Lookup(r', Name(g))
  {
    ExpectedWithout(o, c, fs, f);
    ExpectedWithout(o', c, fs, f);
    RemoveDropsField(fs, f);
    ExpectedAgree(o, o', c, Remove(fs, f), f);
    forall g | g != f
      ensures Lookup(r, Name(g)) == Lookup(r', Name(g))
    {
      ExpectedLookup(o, c, fs, g);
      ExpectedLookup(o', c, fs, g);
      assert Entry(o, c, g) == Entry(o', c, g);
    }
  }

  /** Setting a string property changes at most that property's define. */
  lemma SetTextChangesOnlyItsDefine(o: Options, c: DateTime -> int, f: Field, v: Option<string>)
    requires !IsDate(f)
    ensures var r := Defines(SetText(o, f, v), c);
      && Lookup(r, Name(f)) == (if v.Some? && |v.value| > 0 then Some(Text(v.value)) else None)
      && Without(r, Name(f)) == Without(Defines(o, c), Name(f))
  {
    var o' := SetText(o, f, v);
    DefinesString(o', c, f);
    DefinesFrame(o, o', c, f);
  }

  /** Setting a date property changes at most that property's define. */
  lemma SetDateChangesOnlyItsDefine(o: Options, c: DateTime -> int, f: Field, v: Option<DateTime>)
    requires IsDate(f)
    ensures var r := Defines(SetDate(o, f, v), c);
      && Lookup(r, Name(f)) == (if v.Some? then Some(Seconds(c(v.value))) else None)
      && Without(r, Name(f)) == Without(Defines(o, c), Name(f))
  {
    var o' := SetDate(o, f, v);
    DefinesDate(o', c, f);
    DefinesFrame(o, o', c, f);
  }
}
