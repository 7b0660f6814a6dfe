/**
 Storing parsed lists: a value that is copied into a vector can be read there, and every
 other value of the vector is as before.
 */
module ListStoreProof {
  import opened NestedVectors
  import opened ListText
  import opened ListTextProof

  ghost predicate Good(v: Vec<string>) {
    Valid(v) && ListOnly(v)
  }

  lemma GrowGood(v: Vec<string>, n: nat)
    requires Good(v)
    ensures Good(Grow(v, n)) && Depth(Grow(v, n)) == Depth(v)
  {
  }

  lemma GrowFrame(v: Vec<string>, n: nat, p: nat)
    requires Good(v) && p < Length(v)
    ensures Good(Grow(v, n)) && Read(Grow(v, n), p) == Read(v, p)
  {
  }

  lemma SetNullFrame(v: Vec<string>, pos: nat, p: nat)
    requires Good(v) && pos < Length(v) && p < Length(v)
    ensures Good(SetNull(v, pos, true)) && Read(SetNull(v, pos, true), p) == if p == pos then Null else Read(v, p)
  {
  }

  /** Storing any text keeps a vector well formed. */
  lemma {:induction false} CopyGood(v: Vec<string>, pos: nat, text: string)
    requires Good(v) && pos < Length(v) && Copy(v, pos, text).Some?
    ensures Good(Copy(v, pos, text).value)
    decreases Depth(v), 0, 1
  {
    if IsNull(text) {
      SetNullFrame(v, pos, pos);
    } else if v.Lists? {
      var parts := SplitList(text).parts;
      GrowGood(v.data, |parts|);
      FillGood(Grow(v.data, |parts|), Length(v.data), parts);
    }
  }

  lemma {:induction false} FillGood(v: Vec<string>, offset: nat, parts: seq<string>)
    requires Good(v) && offset + |parts| <= Length(v) && Fill(v, offset, parts).Some?
    ensures Good(Fill(v, offset, parts).value)
    decreases Depth(v), 1, |parts|
  {
    if parts != [] {
      var front := parts[..|parts| - 1];
      FillGood(v, offset, front);
      CopyGood(Fill(v, offset, front).value, offset + |front|, Trim(parts[|front|]));
    }
  }

  /** Storing any text, nested as it may be, changes no other value of the vector. */
  lemma {:induction false} CopyFrame(v: Vec<string>, pos: nat, text: string, p: nat)
    requires Good(v) && pos < Length(v) && p < Length(v) && p != pos && Copy(v, pos, text).Some?
    ensures Good(Copy(v, pos, text).value) && Read(Copy(v, pos, text).value, p) == Read(v, p)
    decreases Depth(v), 0, 1
  {
    CopyGood(v, pos, text);
    if IsNull(text) {
      SetNullFrame(v, pos, p);
    } else if v.Lists? && !v.nulls[p] {
      var parts, e := SplitList(text).parts, v.entries[p];
      var grown := Grow(v.data, |parts|);
      GrowGood(v.data, |parts|);
      var filled := Fill(grown, Length(v.data), parts).value;
      FillGood(grown, Length(v.data), parts);
      forall q | e.offset <= q < e.offset + e.size
        ensures Read(filled, q) == Read(v.data, q)
      {
        GrowFrame(v.data, |parts|, q);
        FillFrame(grown, Length(v.data), parts, q);
      }
      ReadAllSame(filled, v.data, e.offset, e.size);
    }
  }

  lemma {:induction false} FillFrame(v: Vec<string>, offset: nat, parts: seq<string>, p: nat)
    requires Good(v) && offset + |parts| <= Length(v) && p < Length(v) && !(offset <= p < offset + |parts|) && Fill(v, offset, parts).Some?
    ensures Good(Fill(v, offset, parts).value) && Read(Fill(v, offset, parts).value, p) == Read(v, p)
    decreases Depth(v), 1, |parts|
  {
    hide Copy;
    if parts != [] {
      var front := parts[..|parts| - 1];
      FillFrame(v, offset, front, p);
      CopyFrame(Fill(v, offset, front).value, offset + |front|, Trim(parts[|front|]), p);
    }
  }

  /** Text that is not bracketed is refused by a list, unless it stands for null. */
  lemma AcceptedIsList(v: Vec<string>, pos: nat, text: string)
    requires v.Lists? && pos < Length(v) && Copy(v, pos, text).Some? && !IsNull(text)
    ensures var t := Trim(text); |t| >= 2 && t[0] == '[' && t[|t| - 1] == ']'
  {
    hide IsNull, Fill, SplitList, Trim;
    var lead, gaps, last, tail := SplitLosesNothing(text);
    var inner := Woven(gaps, SplitList(text).parts[..|gaps|]) + last;
    Bracketed(text, lead, inner, tail);
  }

  lemma Bracketed(text: string, lead: string, inner: string, tail: string)
    requires text == lead + "[" + inner + "]" + tail && Blank(lead) && Blank(tail)
    ensures Trim(text) == "[" + inner + "]"
  {
    hide Trim, Blank;
    var t := "[" + inner + "]";
    assert lead + "[" + inner + "]" == lead + t;
    assert t[0] == '[' && t[|t| - 1] == ']';
    TrimIs(lead, t, tail);
  }

  // ----- written and printed values -----

  /** Written text stands for null exactly when its value is null. */
  lemma NullWritten(t: Text, depth: nat)
    requires Fits(t, depth)
    ensures IsNull(Render(t)) <==> Meaning(t.core) == Null
  {
    hide IsNull, Trim, CoreFits;
    var c := RenderCore(t.core);
    CoreTrimmed(t.core, depth);
    TrimIs(t.before, c, t.after);
    TrimIs("", c, "");
    assert "" + c + "" == c;
    IsNullExact(Render(t));
    IsNullExact(c);
    if t.core.Brackets? {
      assert c[0] == '[';
    }
  }

  /** What is written with any white space is stored as the value that it stands for. */
  lemma {:induction false} CopyWritten(v: Vec<string>, pos: nat, t: Text)
    requires Good(v) && pos < Length(v) && Fits(t, Depth(v)) && (Depth(v) > 0 || (t.before == "" && t.after == ""))
    ensures Copy(v, pos, Render(t)).Some?
    ensures Good(Copy(v, pos, Render(t)).value) && Read(Copy(v, pos, Render(t)).value, pos) == Meaning(t.core)
    decreases Depth(v), 0, 1
  {
    hide IsNull;
    NullWritten(t, Depth(v));
    match t.core
    case Nothing => SetNullFrame(v, pos, pos);
    case Word(token) =>
      if IsNull(Render(t)) {
        SetNullFrame(v, pos, pos);
      } else {
        assert Render(t) == token;
      }
    case Brackets(_) =>
      SplitWritten(t, Depth(v));
      CopyWrittenList(v, pos, t);
  }

  lemma {:induction false} CopyWrittenList(v: Vec<string>, pos: nat, t: Text)
    requires Good(v) && v.Lists? && pos < Length(v) && Fits(t, Depth(v)) && t.core.Brackets? && !IsNull(Render(t))
    requires SplitList(Render(t)) == Split(true, if Lone(t.core.items) then [] else Parts(t.core.items))
    ensures Copy(v, pos, Render(t)).Some?
    ensures Good(Copy(v, pos, Render(t)).value) && Read(Copy(v, pos, Render(t)).value, pos) == Meaning(t.core)
    decreases Depth(v), 0, 0
  {
    hide Render, SplitList, Fill, Grow, IsNull, Fits;
    var text, items := Render(t), t.core.items;
    ItemsFit(t, Depth(v));
    var kept := if Lone(items) then [] else items;
    var parts, base := Parts(kept), Length(v.data);
    assert SplitList(text).parts == parts by {
      assert Parts([]) == [];
    }
    var grown := Grow(v.data, |parts|);
    GrowGood(v.data, |parts|);
    FillWritten(grown, base, kept);
    CopyGood(v, pos, text);
    assert Meaning(t.core) == List(Meanings(kept)) by {
      assert Meanings([]) == [];
    }
  }

  /** One more element after those already stored. */
  lemma {:induction false} CopyNext(v: Vec<string>, offset: nat, n: nat, t: Text)
    requires Good(v) && offset + n < Length(v) && Fits(t, Depth(v))
    ensures var r := Copy(v, offset + n, RenderCore(t.core));
            && r.Some? && Good(r.value) && ReadAll(r.value, offset, n + 1) == ReadAll(v, offset, n) + [Meaning(t.core)]
    decreases Depth(v), 0, 2
  {
    hide Copy, RenderCore, CoreFits, Meaning, Valid;
    var text, bare := RenderCore(t.core), Text("", t.core, "");
    assert "" + text + "" == text;
    CopyWritten(v, offset + n, bare);
    var after := Copy(v, offset + n, text).value;
    forall q | offset <= q < offset + n
      ensures Read(after, q) == Read(v, q)
    {
      CopyFrame(v, offset + n, text, q);
    }
    ReadAllSame(after, v, offset, n);
  }

  lemma FillLast(v: Vec<string>, offset: nat, front: seq<string>, text: string)
    requires offset + |front| < Length(v) && Fill(v, offset, front).Some?
    ensures Fill(v, offset, front + [text]) == Copy(Fill(v, offset, front).value, offset + |front|, Trim(text))
  {
    hide Copy;
    assert (front + [text])[..|front|] == front;
  }

  /** The parts of written elements are stored as the elements. */
  lemma {:induction false} FillWritten(v: Vec<string>, offset: nat, items: seq<Text>)
    requires Good(v) && offset + |items| <= Length(v) && AllFit(items, Depth(v))
    ensures Fill(v, offset, Parts(items)).Some? && Good(Fill(v, offset, Parts(items)).value)
    ensures ReadAll(Fill(v, offset, Parts(items)).value, offset, |items|) == Meanings(items)
    decreases Depth(v), 1, |items|
  {
    hide Copy, Fill, RenderCore, Parts, PartOf, Fits, Valid, ReadAll, Trim, Meaning, Meanings;
    if items == [] {
      FillNone(v, offset);
    } else {
      MeaningsSnoc(items);
      var front, last := items[..|items| - 1], items[|items| - 1];
      assert items == front + [last];
      FillWritten(v, offset, front);
      PartsLast(front, last);
      FillLast(v, offset, Parts(front), PartOf(last));
      TrimPart(last, Depth(v));
      CopyNext(Fill(v, offset, Parts(front)).value, offset, |front|, last);
    }
  }

  lemma FillNone(v: Vec<string>, offset: nat)
    requires Valid(v) && offset <= Length(v)
    ensures Fill(v, offset, Parts([])) == Some(v) && ReadAll(v, offset, 0) == Meanings([])
  {
  }

  lemma MeaningsSnoc(items: seq<Text>)
    requires items != []
    ensures Meanings(items) == Meanings(items[..|items| - 1]) + [Meaning(items[|items| - 1].core)]
  {
  }

  /** Any text of a list: what it stands for is stored, whatever the white space, and nothing else is changed. */
  lemma ParseWritten(v: Vec<string>, pos: nat, t: Text)
    requires Good(v) && v.Lists? && pos < Length(v) && Fits(t, Depth(v))
    ensures var r := Copy(v, pos, Render(t));
            && r.Some? && Good(r.value) && Read(r.value, pos) == Meaning(t.core)
            && forall p | 0 <= p < Length(v) && p != pos :: Read(r.value, p) == Read(v, p)
  {
    hide Copy, Fits, Render, Meaning;
    CopyWritten(v, pos, t);
    forall p | 0 <= p < Length(v) && p != pos
      ensures Read(Copy(v, pos, Render(t)).value, p) == Read(v, p)
    {
      CopyFrame(v, pos, Render(t), p);
    }
  }

  /** A printed value is stored as itself, up to lists of one null. */
  lemma CopyPrinted(v: Vec<string>, pos: nat, x: Value<string>)
    requires Good(v) && pos < Length(v) && Printable(x, Depth(v))
    ensures Copy(v, pos, Print(x)).Some?
    ensures Good(Copy(v, pos, Print(x)).value) && Read(Copy(v, pos, Print(x)).value, pos) == Normalized(x)
  {
    hide Copy, CoreFits, RenderCore, Print, Printable, Spaced;
    var c := CoreOf(x);
    PrintRenders(x);
    PrintedSpaced(x, Depth(v));
    SpacedFits(c, x, Depth(v));
    assert "" + RenderCore(c) + "" == RenderCore(c);
    CopyWritten(v, pos, Text("", c, ""));
  }

  /** Print, then parse: the value that was read and printed is read again, exactly when no list in it is one null. */
  lemma RoundTrip(v: Vec<string>, pos: nat, x: Value<string>)
    requires Good(v) && pos < Length(v) && Printable(x, Depth(v))
    ensures var r := Copy(v, pos, Print(x));
            && r.Some? && Good(r.value) && (Read(r.value, pos) == x <==> NoLoneNull(x))
            && forall p | 0 <= p < Length(v) && p != pos :: Read(r.value, p) == Read(v, p)
  {
    CopyPrinted(v, pos, x);
    NormalizedExact(x);
    forall p | 0 <= p < Length(v) && p != pos
      ensures Read(Copy(v, pos, Print(x)).value, p) == Read(v, p)
    {
      CopyFrame(v, pos, Print(x), p);
    }
  }

  /** The same of a printed list with any white space around its brackets, its commas and its elements, at every depth. */
  lemma SpacedRoundTrip(v: Vec<string>, pos: nat, x: Value<string>, t: Text)
    requires Good(v) && v.Lists? && pos < Length(v) && Printable(x, Depth(v))
    requires Blank(t.before) && Blank(t.after) && Spaced(t.core, x)
    ensures var r := Copy(v, pos, Render(t));
            && r.Some? && Good(r.value) && (Read(r.value, pos) == x <==> NoLoneNull(x))
            && forall p | 0 <= p < Length(v) && p != pos :: Read(r.value, p) == Read(v, p)
  {
    hide Copy, Render, CoreFits, Printable, Spaced, NoLoneNull;
    SpacedFits(t.core, x, Depth(v));
    ParseWritten(v, pos, t);
    NotStruct(x, Depth(v));
    NormalizedExact(x);
  }

  lemma NotStruct(x: Value<string>, depth: nat)
    requires Printable(x, depth)
    ensures !x.Struct?
  {
  }
}
