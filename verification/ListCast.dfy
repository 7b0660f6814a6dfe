/**
 Printing and casting lists as they run: loops that advance through the text, and
 vectors that are written position by position.
 */
module ListCast {
  import opened NestedVectors
  import opened ListText

  // ----- printing -----

  /** What has been printed before the last element: every element with its comma. */
  function Before(es: seq<Value<string>>): string {
    if es == [] then "" else Before(es[..|es| - 1]) + Print(es[|es| - 1]) + ","
  }

  lemma {:induction false} BeforeFirst(es: seq<Value<string>>)
    requires es != []
    ensures Before(es) == Print(es[0]) + "," + Before(es[1..])
    decreases |es|
  {
    if |es| > 1 {
      var front := es[..|es| - 1];
      BeforeFirst(front);
      assert es[1..][..|es| - 2] == front[1..];
    }
  }

  lemma {:induction false} PrintAllLast(es: seq<Value<string>>)
    requires es != []
    ensures PrintAll(es) == Before(es[..|es| - 1]) + Print(es[|es| - 1])
    decreases |es|
  {
    if |es| > 1 {
      PrintAllLast(es[1..]);
      BeforeFirst(es[..|es| - 1]);
      assert es[1..][..|es| - 2] == es[..|es| - 1][1..];
    }
  }

  method EntryToString(v: Vec<string>, pos: nat) returns (s: string)
    requires Valid(v) && pos < Length(v) && ListOnly(v)
    ensures s == Print(Read(v, pos))
    decreases v, 0
  {
    if v.nulls[pos] {
      return "";
    }
    match v
    case Leaves(_, cells) => s := cells[pos];
    case Lists(_, entries, data) => s := ListToString(data, entries[pos].offset, entries[pos].size);
  }

  lemma BeforeNext(data: Vec<string>, offset: nat, i: nat)
    requires Valid(data) && offset + i < Length(data)
    ensures "[" + Before(ReadAll(data, offset, i)) + Print(Read(data, offset + i)) + "," == "[" + Before(ReadAll(data, offset, i + 1))
  {
    hide Print, Valid, Read;
    var es, x := ReadAll(data, offset, i), Read(data, offset + i);
    assert ReadAll(data, offset, i + 1) == es + [x];
    assert (es + [x])[..i] == es;
  }

  lemma PrintedWithLast(es: seq<Value<string>>, x: Value<string>)
    ensures "[" + Before(es) + Print(x) + "]" == Print(List(es + [x]))
  {
    assert (es + [x])[..|es|] == es;
    PrintAllLast(es + [x]);
    assert "[" + Before(es) + Print(x) + "]" == "[" + (Before(es) + Print(x)) + "]";
  }

  lemma BeforeAll(data: Vec<string>, offset: nat, size: nat)
    requires Valid(data) && 0 < size && offset + size <= Length(data)
    ensures "[" + Before(ReadAll(data, offset, size - 1)) + Print(Read(data, offset + size - 1)) + "]" ==
            Print(List(ReadAll(data, offset, size)))
  {
    hide Valid, Read;
    var es, x := ReadAll(data, offset, size - 1), Read(data, offset + size - 1);
    assert ReadAll(data, offset, size) == es + [x];
    PrintedWithLast(es, x);
  }

  method ListToString(data: Vec<string>, offset: nat, size: nat) returns (result: string)
    requires Valid(data) && ListOnly(data) && offset + size <= Length(data)
    ensures result == Print(List(ReadAll(data, offset, size)))
    decreases data, 1
  {
    if size == 0 {
      PrintEmpty(data, offset);
      return "[]";
    }
    hide Print, Before, ReadAll, Read, Valid, ListOnly;
    result := "[";
    BeforeNone(data, offset);
    for i := 0 to size - 1
      invariant result == "[" + Before(ReadAll(data, offset, i))
    {
      var element := EntryToString(data, offset + i);
      result := result + element;
      result := result + ",";
      BeforeNext(data, offset, i);
    }
    var last := EntryToString(data, offset + size - 1);
    result := result + last;
    result := result + "]";
    BeforeAll(data, offset, size);
  }

  lemma PrintEmpty(data: Vec<string>, offset: nat)
    requires Valid(data) && offset <= Length(data)
    ensures Print(List(ReadAll(data, offset, 0))) == "[]"
  {
  }

  lemma BeforeNone(data: Vec<string>, offset: nat)
    requires Valid(data) && offset <= Length(data)
    ensures "[" == "[" + Before(ReadAll(data, offset, 0))
  {
  }

  // ----- scanning -----

  method SkipWhitespace(s: string, start: nat) returns (i: nat)
    requires start <= |s|
    ensures i == SkipSpaces(s, start)
  {
    i := start;
    while i < |s|
      invariant start <= i <= |s| && SkipSpaces(s, start) == SkipSpaces(s, i)
    {
      if !IsSpace(s[i]) {
        break;
      }
      i := i + 1;
    }
  }

  method TrimWhitespace(s: string) returns (r: string)
    ensures r == Trim(s)
  {
    var start := SkipWhitespace(s, 0);
    var end := |s|;
    assert s[start..end] == s[start..];
    while start < end && IsSpace(s[end - 1])
      invariant start <= end <= |s| && TrimRight(s[start..]) == TrimRight(s[start..end])
    {
      assert s[start..end][..end - start - 1] == s[start..end - 1];
      end := end - 1;
    }
    r := s[start..end];
  }

  method SkipToCloseQuotes(s: string, i: nat) returns (j: Option<nat>)
    requires i < |s|
    ensures j == NextQuote(s, i + 1, s[i])
  {
    var k := i + 1;
    while k != |s|
      invariant i + 1 <= k <= |s| && NextQuote(s, i + 1, s[i]) == NextQuote(s, k, s[i])
    {
      if s[k] == s[i] {
        return Some(k);
      }
      k := k + 1;
    }
    j := None;
  }

  method SkipToClose(s: string, i: nat, lvl: int, target: char) returns (closed: Option<(nat, int)>)
    requires i < |s|
    ensures closed == Close(s, i + 1, lvl, target)
    decreases |s| - i
  {
    var j, l := i + 1, lvl;
    while j != |s|
      invariant i + 1 <= j <= |s| && Close(s, i + 1, lvl, target) == Close(s, j, l, target)
      decreases |s| - j
    {
      if s[j] == '\'' {
        var q := SkipToCloseQuotes(s, j);
        if q.None? {
          return None;
        }
        j := q.value;
      } else if s[j] == '{' {
        var c := SkipToClose(s, j, l, '}');
        if c.None? {
          return None;
        }
        j, l := c.value.0, c.value.1;
      } else if s[j] == '[' {
        var c := SkipToClose(s, j, l, ']');
        if c.None? {
          return None;
        }
        j, l := c.value.0, c.value.1 + 1;
      } else if s[j] == target {
        if target == ']' {
          l := l - 1;
        }
        return Some((j, l));
      }
      j := j + 1;
    }
    closed := None;
  }

  method SplitCStringList(s: string) returns (split: Split)
    ensures split == SplitList(s)
  {
    var i := SkipWhitespace(s, 0);
    if i == |s| || s[i] != '[' {
      return Split(false, []);
    }
    var j := SkipWhitespace(s, i + 1);
    var start: nat := j;
    var atStart, seen, lvl, parts := true, false, 1, [];
    hide Close, SkipSpaces, NextQuote;
    while j < |s|
      invariant start <= j <= |s|
      invariant SplitList(s) == SplitFrom(s, j, start, atStart, seen, lvl, parts)
      decreases |s| - j
    {
      var ch := s[j];
      if ch == '[' {
        var c := SkipToClose(s, j, lvl + 1, ']');
        if c.None? {
          return Split(false, parts);
        }
        j, lvl := c.value.0, c.value.1;
      } else if (ch == '\'' || ch == '"') && atStart {
        var q := SkipToCloseQuotes(s, j);
        if q.Some? {
          j := q.value;
        }
      } else if ch == '{' {
        var c := SkipToClose(s, j, 0, '}');
        if c.None? {
          return Split(false, parts);
        }
        j := c.value.0;
      } else if ch == ',' || ch == ']' {
        if ch == ']' {
          var end := SkipWhitespace(s, j + 1);
          return Split(end == |s| && lvl - 1 == 0, if start < j || seen then parts + [s[start..j]] else parts);
        }
        parts, seen := parts + [s[start..j]], true;
        j := SkipWhitespace(s, j + 1);
        start, atStart := j, true;
        continue;
      }
      atStart := false;
      j := j + 1;
    }
    split := Split(false, parts);
  }

  method IsNullText(s: string) returns (r: bool)
    ensures r == IsNull(s)
  {
    var i := SkipWhitespace(s, 0);
    if i == |s| {
      return true;
    }
    if i + 4 <= |s| && IsNullWord(s, i) {
      var j := SkipWhitespace(s, i + 4);
      return j == |s|;
    }
    r := false;
  }

  // ----- storing -----

  /** Counts the parts, makes space for them and fills it; none when the text is not of the type. */
  method CopyStringToVector(v: Vec<string>, pos: nat, text: string) returns (r: Option<Vec<string>>)
    requires pos < Length(v)
    ensures r == Copy(v, pos, text)
    decreases Depth(v), 0
  {
    var isNull := IsNullText(text);
    if isNull {
      return Some(SetNull(v, pos, true));
    }
    match v
    case Leaves(nulls, cells) =>
      r := if pos < |cells| then Some(Leaves(nulls[pos := false], cells[pos := text])) else None;
    case Lists(nulls, entries, data) =>
      var split := SplitCStringList(text);
      var filled := FillParts(Grow(data, |split.parts|), Length(data), split.parts);
      r := if !split.ok || filled.None? || pos >= |entries| then None
           else Some(Lists(nulls[pos := false], entries[pos := Entry(Length(data), |split.parts|)], filled.value));
    case Structs(_, _) => r := None;
  }

  method FillParts(v: Vec<string>, offset: nat, parts: seq<string>) returns (r: Option<Vec<string>>)
    requires offset + |parts| <= Length(v)
    ensures r == Fill(v, offset, parts)
    decreases Depth(v), 1
  {
    r := Some(v);
    for i := 0 to |parts|
      invariant r == Fill(v, offset, parts[..i])
    {
      assert parts[..i + 1][..i] == parts[..i];
      if r.Some? {
        var text := TrimWhitespace(parts[i]);
        r := CopyStringToVector(r.value, offset + i, text);
      }
    }
    assert parts[..|parts|] == parts;
  }
}
