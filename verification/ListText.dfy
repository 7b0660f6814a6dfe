/**
 Lists as text: how they are printed, and how text is split and stored again.
 */
module ListText {
  import opened NestedVectors

  datatype Option<T> = None | Some(value: T)

  /** Lists of lists of leaves. */
  predicate ListOnly(v: Vec<string>) {
    v.Leaves? || (v.Lists? && ListOnly(v.data))
  }

  // ----- printing -----

  /** A null prints as nothing, and the elements of a list are separated by commas. */
  function Print(x: Value<string>): string {
    match x
    case Null => ""
    case Leaf(token) => token
    case List(es) => "[" + PrintAll(es) + "]"
    case Struct(_) => ""
  }

  function PrintAll(es: seq<Value<string>>): string {
    if es == [] then "" else if |es| == 1 then Print(es[0]) else Print(es[0]) + "," + PrintAll(es[1..])
  }

  // ----- scanning -----

  predicate IsSpace(c: char) {
    c == ' ' || '\t' <= c <= '\r'
  }

  /** The first position from `i` on that is no white space. */
  function SkipSpaces(s: string, i: nat): (r: nat)
    requires i <= |s|
    ensures i <= r <= |s|
    decreases |s| - i
  {
    if i < |s| && IsSpace(s[i]) then SkipSpaces(s, i + 1) else i
  }

  function TrimRight(s: string): (r: string)
    ensures |r| <= |s|
  {
    if s != "" && IsSpace(s[|s| - 1]) then TrimRight(s[..|s| - 1]) else s
  }

  function Trim(s: string): string {
    TrimRight(s[SkipSpaces(s, 0)..])
  }

  /** The next occurrence of `c` from `i` on. */
  function NextQuote(s: string, i: nat, c: char): (r: Option<nat>)
    requires i <= |s|
    ensures r.Some? ==> i <= r.value < |s|
    decreases |s| - i
  {
    if i == |s| then None else if s[i] == c then Some(i) else NextQuote(s, i + 1, c)
  }

  /** The loop of `skipToClose` from position `j` on: where the target closes, and the level then. */
  function Close(s: string, j: nat, lvl: int, target: char): (r: Option<(nat, int)>)
    requires j <= |s|
    ensures r.Some? ==> j <= r.value.0 < |s|
    decreases |s| - j
  {
    if j == |s| then None
    else if s[j] == '\'' then
      var q := NextQuote(s, j + 1, s[j]);
      if q.None? then None else Close(s, q.value + 1, lvl, target)
    else if s[j] == '{' then
      var c := Close(s, j + 1, lvl, '}');
      if c.None? then None else Close(s, c.value.0 + 1, c.value.1, target)
    else if s[j] == '[' then
      var c := Close(s, j + 1, lvl, ']');
      if c.None? then None else Close(s, c.value.0 + 1, c.value.1 + 1, target)
    else if s[j] == target then Some((j, if target == ']' then lvl - 1 else lvl))
    else Close(s, j + 1, lvl, target)
  }

  /** What splitting found: the parts handed on, and whether the text was a list. */
  datatype Split = Split(ok: bool, parts: seq<string>)

  /** The loop of `splitCStringList` at position `j`, with a part that began at `start`. */
  function SplitFrom(s: string, j: nat, start: nat, atStart: bool, seen: bool, lvl: int, parts: seq<string>): Split
    requires start <= j <= |s|
    decreases |s| - j
  {
    if j == |s| then Split(false, parts)
    else if s[j] == '[' then
      var c := Close(s, j + 1, lvl + 1, ']');
      if c.None? then Split(false, parts) else SplitFrom(s, c.value.0 + 1, start, false, seen, c.value.1, parts)
    else if (s[j] == '\'' || s[j] == '"') && atStart then
      var q := NextQuote(s, j + 1, s[j]);
      SplitFrom(s, (if q.Some? then q.value else j) + 1, start, false, seen, lvl, parts)
    else if s[j] == '{' then
      var c := Close(s, j + 1, 0, '}');
      if c.None? then Split(false, parts) else SplitFrom(s, c.value.0 + 1, start, false, seen, lvl, parts)
    else if s[j] == ',' then
      var next := SkipSpaces(s, j + 1);
      SplitFrom(s, next, next, true, true, lvl, parts + [s[start..j]])
    else if s[j] == ']' then
      var all := if start < j || seen then parts + [s[start..j]] else parts;
      Split(SkipSpaces(s, j + 1) == |s| && lvl - 1 == 0, all)
    else SplitFrom(s, j + 1, start, false, seen, lvl, parts)
  }

  /** `splitCStringList`. */
  function SplitList(s: string): Split {
    var i := SkipSpaces(s, 0);
    if i == |s| || s[i] != '[' then Split(false, [])
    else
      var j := SkipSpaces(s, i + 1);
      SplitFrom(s, j, j, true, false, 1, [])
  }

  predicate IsNullWord(s: string, i: nat)
    requires i + 4 <= |s|
  {
    && (s[i] == 'N' || s[i] == 'n') && (s[i + 1] == 'U' || s[i + 1] == 'u')
    && (s[i + 2] == 'L' || s[i + 2] == 'l') && (s[i + 3] == 'L' || s[i + 3] == 'l')
  }

  /** Blank text and the word null, in any case, stand for null. */
  predicate IsNull(s: string) {
    var i := SkipSpaces(s, 0);
    i == |s| || (i + 4 <= |s| && IsNullWord(s, i) && SkipSpaces(s, i + 4) == |s|)
  }

  // ----- storing -----

  function Repeat<T>(x: T, n: nat): (r: seq<T>)
    ensures |r| == n && forall i | 0 <= i < n :: r[i] == x
  {
    seq(n, _ => x)
  }

  /** How deep lists are nested in a vector. */
  function Depth<T>(v: Vec<T>): nat {
    if v.Lists? then 1 + Depth(v.data) else 0
  }

  /** Space for `n` more values. */
  function Grow(v: Vec<string>, n: nat): (r: Vec<string>)
    ensures Depth(r) == Depth(v) && Length(r) == Length(v) + n
  {
    match v
    case Leaves(nulls, cells) => Leaves(nulls + Repeat(true, n), cells + Repeat("", n))
    case Lists(nulls, entries, data) => Lists(nulls + Repeat(true, n), entries + Repeat(Entry(0, 0), n), data)
    case Structs(nulls, fields) => Structs(nulls + Repeat(true, n), fields)
  }

  function SetNull<T>(v: Vec<T>, pos: nat, isNull: bool): (r: Vec<T>)
    requires pos < Length(v)
    ensures Depth(r) == Depth(v) && Length(r) == Length(v)
  {
    match v
    case Leaves(nulls, cells) => Leaves(nulls[pos := isNull], cells)
    case Lists(nulls, entries, data) => Lists(nulls[pos := isNull], entries, data)
    case Structs(nulls, fields) => Structs(nulls[pos := isNull], fields)
  }

  /** `copyStringToVector`; none when the text is not of the type of the vector. A leaf is stored as its text. */
  function Copy(v: Vec<string>, pos: nat, text: string): (r: Option<Vec<string>>)
    requires pos < Length(v)
    ensures r.Some? ==> Depth(r.value) == Depth(v) && Length(r.value) == Length(v)
    decreases Depth(v), 0, 1
  {
    if IsNull(text) then Some(SetNull(v, pos, true))
    else match v
      case Leaves(nulls, cells) => if pos < |cells| then Some(Leaves(nulls[pos := false], cells[pos := text])) else None
      case Lists(nulls, entries, data) =>
        var split := SplitList(text);
        var filled := Fill(Grow(data, |split.parts|), Length(data), split.parts);
        if !split.ok || filled.None? || pos >= |entries| then None
        else Some(Lists(nulls[pos := false], entries[pos := Entry(Length(data), |split.parts|)], filled.value))
      case Structs(_, _) => None
  }

  /** The parts of a list, one after the other from `offset` on. */
  function Fill(v: Vec<string>, offset: nat, parts: seq<string>): (r: Option<Vec<string>>)
    requires offset + |parts| <= Length(v)
    ensures r.Some? ==> Depth(r.value) == Depth(v) && Length(r.value) == Length(v)
    decreases Depth(v), 1, |parts|
  {
    if parts == [] then Some(v)
    else
      var front := Fill(v, offset, parts[..|parts| - 1]);
      if front.None? then None else Copy(front.value, offset + |parts| - 1, Trim(parts[|parts| - 1]))
  }
}
