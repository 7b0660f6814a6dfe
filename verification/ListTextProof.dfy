/**
 Reading lists from text: lists written with any white space around brackets, commas and
 elements, and with quoted and braced elements, are split into their elements; printed
 lists are a special case. Splitting loses none of the text.
 */
module ListTextProof {
  import opened NestedVectors
  import opened ListText

  // ----- white space -----

  /** What `isspace` takes for white space. */
  lemma SpacesAre(c: char)
    ensures IsSpace(c) <==> c == ' ' || c == '\t' || c == '\n' || c == '\r' || c as int == 11 || c as int == 12
  {
  }

  predicate Blank(s: string) {
    forall i | 0 <= i < |s| :: IsSpace(s[i])
  }

  /** White space is passed over, and nothing else. */
  lemma {:induction false} SkipSpacesExact(s: string, i: nat)
    requires i <= |s|
    ensures var r := SkipSpaces(s, i);
            && (forall k | i <= k < r :: IsSpace(s[k])) && (r == |s| || !IsSpace(s[r]))
    decreases |s| - i
  {
    if i < |s| && IsSpace(s[i]) {
      SkipSpacesExact(s, i + 1);
    }
  }

  /** Where the white space ends is where the scan stops. */
  lemma SkipSpacesTo(s: string, i: nat, r: nat)
    requires i <= r <= |s| && (forall k | i <= k < r :: IsSpace(s[k])) && (r == |s| || !IsSpace(s[r]))
    ensures SkipSpaces(s, i) == r
  {
    SkipSpacesExact(s, i);
  }

  lemma SkippedBlank(s: string, i: nat)
    requires i <= |s|
    ensures Blank(s[i..SkipSpaces(s, i)])
  {
    SkipSpacesExact(s, i);
  }

  lemma {:induction false} TrimRightExact(s: string)
    ensures var r := TrimRight(s);
            && r == s[..|r|] && Blank(s[|r|..]) && (r == "" || !IsSpace(r[|r| - 1]))
    decreases |s|
  {
    if s != "" && IsSpace(s[|s| - 1]) {
      var front := s[..|s| - 1];
      TrimRightExact(front);
      assert s[|TrimRight(front)|..] == front[|TrimRight(front)|..] + [s[|s| - 1]];
    }
  }

  /** Text that neither begins nor ends with white space. */
  predicate Trimmed(t: string) {
    t == "" || (!IsSpace(t[0]) && !IsSpace(t[|t| - 1]))
  }

  /** Trimming takes white space from both ends, and all of it. */
  lemma TrimExact(s: string) returns (a: string, b: string)
    ensures s == a + Trim(s) + b && Blank(a) && Blank(b) && Trimmed(Trim(s))
  {
    hide SkipSpaces, TrimRight, IsSpace;
    var i := SkipSpaces(s, 0);
    SkipSpacesExact(s, 0);
    var rest, t := s[i..], Trim(s);
    TrimRightExact(rest);
    a, b := s[..i], rest[|t|..];
    assert rest == t + b;
    assert s == a + rest == a + t + b;
    if t != "" {
      assert t[0] == rest[0] == s[i];
    }
  }

  lemma {:induction false} TrimRightIs(t: string, b: string)
    requires Trimmed(t) && Blank(b)
    ensures TrimRight(t + b) == t
    decreases |b|
  {
    if b == "" {
      assert t + b == t;
    } else {
      assert (t + b)[..|t + b| - 1] == t + b[..|b| - 1];
      TrimRightIs(t, b[..|b| - 1]);
    }
  }

  /** White space around trimmed text is what trimming takes away. */
  lemma TrimIs(a: string, t: string, b: string)
    requires Trimmed(t) && Blank(a) && Blank(b)
    ensures Trim(a + t + b) == t
  {
    var s := a + t + b;
    if t == "" {
      assert Blank(s);
      SkipSpacesTo(s, 0, |s|);
      assert s[|s|..] == "";
    } else {
      assert s[|a|] == t[0];
      SkipSpacesTo(s, 0, |a|);
      assert s[|a|..] == t + b;
      TrimRightIs(t, b);
    }
  }

  // ----- null -----

  function ToLower(c: char): char {
    if 'A' <= c <= 'Z' then (c as int - 'A' as int + 'a' as int) as char else c
  }

  predicate SameWord(s: string, word: string) {
    |s| == |word| && forall i | 0 <= i < |s| :: ToLower(s[i]) == word[i]
  }

  lemma NullWordIs(s: string, i: nat)
    requires i + 4 <= |s|
    ensures IsNullWord(s, i) <==> SameWord(s[i..i + 4], "null")
  {
    var t := s[i..i + 4];
    assert t[0] == s[i] && t[1] == s[i + 1] && t[2] == s[i + 2] && t[3] == s[i + 3];
  }

  /** Text stands for null exactly when, trimmed, it is empty or the word null in any case. */
  lemma IsNullExact(s: string)
    ensures IsNull(s) <==> Trim(s) == "" || SameWord(Trim(s), "null")
  {
    hide IsNullWord, SameWord, Trim, SkipSpaces;
    var i := SkipSpaces(s, 0);
    SkipSpacesExact(s, 0);
    var a, b := TrimExact(s);
    var t := Trim(s);
    if t == "" {
      assert Blank(s);
    } else {
      assert s[|a|] == t[0];
      assert i == |a|;
      NullTail(s, a, t, b);
    }
  }

  lemma NullTail(s: string, a: string, t: string, b: string)
    requires s == a + t + b && t != "" && Trimmed(t) && Blank(b)
    ensures |a| + 4 <= |s| && IsNullWord(s, |a|) && SkipSpaces(s, |a| + 4) == |s| <==> SameWord(t, "null")
  {
    hide IsNullWord, SkipSpaces, Trimmed, SameWord, ToLower, Blank, IsSpace;
    var i := |a|;
    if |t| == 4 {
      assert |a + t| == i + 4;
      BlankEnd(s, a + t, b);
      Middle(a, t, b);
      NullWordIs(s, i);
    } else {
      NotSameWord(t);
      if i + 4 <= |s| {
        NullWordIs(s, i);
        if |t| > 4 {
          LongText(s, a, t, b);
        } else {
          ShortText(s, a, t, b);
        }
      }
    }
  }

  lemma ShortText(s: string, a: string, t: string, b: string)
    requires s == a + t + b && |t| < 4 && |a| + 4 <= |s| && Blank(b)
    ensures !SameWord(s[|a|..|a| + 4], "null")
  {
    hide SameWord;
    assert s[|a|..|a| + 4][3] == b[3 - |t|];
    SpaceInWord(s[|a|..|a| + 4], 3);
  }

  lemma NotSameWord(t: string)
    requires |t| != 4
    ensures !SameWord(t, "null")
  {
  }

  lemma SpaceInWord(t: string, k: nat)
    requires k < |t| && IsSpace(t[k])
    ensures !SameWord(t, "null")
  {
    if |t| == 4 {
      assert "null" == ['n', 'u', 'l', 'l'];
    }
  }

  lemma Middle(a: string, t: string, b: string)
    ensures (a + t + b)[|a|..|a| + |t|] == t
  {
  }

  lemma BlankEnd(s: string, h: string, b: string)
    requires s == h + b && Blank(b)
    ensures SkipSpaces(s, |h|) == |s|
  {
    forall k | |h| <= k < |s|
      ensures IsSpace(s[k])
    {
      assert s[k] == b[k - |h|];
    }
    SkipSpacesTo(s, |h|, |s|);
  }

  lemma LongText(s: string, a: string, t: string, b: string)
    requires s == a + t + b && |t| > 4 && Trimmed(t)
    ensures SkipSpaces(s, |a| + 4) != |s|
  {
    SkipSpacesExact(s, |a| + 4);
    assert s[|a| + |t| - 1] == t[|t| - 1];
  }

  // ----- text with white space -----

  /** The text of an element, with the white space before and after it. */
  datatype Text = Text(before: string, core: Core, after: string)

  datatype Core = Nothing | Word(token: string) | Brackets(items: seq<Text>)

  function RenderCore(c: Core): string {
    match c
    case Nothing => ""
    case Word(token) => token
    case Brackets(items) => "[" + RenderAll(items) + "]"
  }

  function Render(t: Text): string {
    t.before + RenderCore(t.core) + t.after
  }

  function RenderAll(items: seq<Text>): string {
    if items == [] then "" else if |items| == 1 then Render(items[0]) else Render(items[0]) + "," + RenderAll(items[1..])
  }

  /** A character without a meaning of its own. */
  predicate Ordinary(c: char) {
    c != '\'' && c != '"' && c != '[' && c != ']' && c != '{' && c != '}' && c != ','
  }

  /** The characters between the first and the last. */
  ghost predicate Inside(token: string, ok: char -> bool) {
    |token| >= 2 && forall i | 0 < i < |token| - 1 :: ok(token[i])
  }

  /** Ordinary characters, and double quotes that do not begin the word. */
  ghost predicate PlainWord(token: string) {
    token != "" && Trimmed(token) && forall i | 0 <= i < |token| :: Ordinary(token[i]) || (i > 0 && token[i] == '"')
  }

  /** Anything but the quote between single quotes. */
  ghost predicate SingleQuoted(token: string) {
    Inside(token, c => c != '\'') && token[0] == '\'' && token[|token| - 1] == '\''
  }

  /** Ordinary characters and commas between double quotes. */
  ghost predicate DoubleQuoted(token: string) {
    Inside(token, c => Ordinary(c) || c == ',') && token[0] == '"' && token[|token| - 1] == '"'
  }

  ghost predicate Braced(token: string) {
    Inside(token, c => Ordinary(c) || c == ',') && token[0] == '{' && token[|token| - 1] == '}'
  }

  ghost predicate IsWord(token: string) {
    PlainWord(token) || SingleQuoted(token) || DoubleQuoted(token) || Braced(token)
  }

  /** Text of a value of lists nested `depth` deep; a word at a higher level is the word null. */
  ghost predicate CoreFits(c: Core, depth: nat) {
    match c
    case Nothing => true
    case Word(token) => IsWord(token) && (depth == 0 || IsNull(token))
    case Brackets(items) => depth > 0 && forall i | 0 <= i < |items| :: Fits(items[i], depth - 1)
  }

  ghost predicate Fits(t: Text, depth: nat) {
    Blank(t.before) && Blank(t.after) && CoreFits(t.core, depth)
  }

  ghost predicate AllFit(items: seq<Text>, depth: nat) {
    forall i | 0 <= i < |items| :: Fits(items[i], depth)
  }

  /** One element that is not there. */
  predicate Lone(items: seq<Text>) {
    |items| == 1 && items[0].core == Nothing
  }

  /** The value that the text stands for. Brackets with nothing between them are an empty list. */
  function Meaning(c: Core): Value<string> {
    match c
    case Nothing => Null
    case Word(token) => if IsNull(token) then Null else Leaf(token)
    case Brackets(items) => if Lone(items) then List([]) else List(Meanings(items))
  }

  function Meanings(items: seq<Text>): (r: seq<Value<string>>)
    ensures |r| == |items|
  {
    if items == [] then [] else Meanings(items[..|items| - 1]) + [Meaning(items[|items| - 1].core)]
  }

  /** What splitting hands on for an element: its text without the white space before it. */
  function PartOf(t: Text): string {
    if t.core == Nothing then "" else RenderCore(t.core) + t.after
  }

  function Parts(items: seq<Text>): (r: seq<string>)
    ensures |r| == |items|
  {
    if items == [] then [] else [PartOf(items[0])] + Parts(items[1..])
  }

  lemma {:induction false} PartsLast(items: seq<Text>, t: Text)
    ensures Parts(items + [t]) == Parts(items) + [PartOf(t)]
    decreases |items|
  {
    if items == [] {
      assert items + [t] == [t];
    } else {
      assert (items + [t])[1..] == items[1..] + [t];
      PartsLast(items[1..], t);
    }
  }

  lemma CoreTrimmed(c: Core, depth: nat)
    requires CoreFits(c, depth)
    ensures Trimmed(RenderCore(c)) && (RenderCore(c) == "" <==> c == Nothing)
  {
  }

  lemma TrimPart(t: Text, depth: nat)
    requires Fits(t, depth)
    ensures Trim(PartOf(t)) == RenderCore(t.core)
  {
    CoreTrimmed(t.core, depth);
    if t.core == Nothing {
      TrimIs("", "", "");
    } else {
      TrimIs("", RenderCore(t.core), t.after);
      assert "" + RenderCore(t.core) + t.after == PartOf(t);
    }
  }

  // ----- text at a position -----

  predicate At(s: string, i: nat, p: string) {
    i + |p| <= |s| && s[i..i + |p|] == p
  }

  lemma AtParts(s: string, i: nat, p: string, q: string)
    requires At(s, i, p + q)
    ensures At(s, i, p) && At(s, i + |p|, q)
  {
    var m, n := |p|, |p + q|;
    assert s[i..i + n][..m] == s[i..i + m] && (p + q)[..m] == p;
    assert s[i..i + n][m..] == s[i + m..i + n] && (p + q)[m..] == q;
  }

  lemma AtChar(s: string, i: nat, p: string, k: nat)
    requires At(s, i, p) && k < |p|
    ensures s[i + k] == p[k]
  {
    assert s[i..i + |p|][k] == s[i + k];
  }

  lemma AtText(s: string, j: nat, p: string)
    requires At(s, j, p)
    ensures j + |p| <= |s| && s[j..j + |p|] == p
  {
  }

  lemma AtBlank(s: string, j: nat, p: string)
    requires At(s, j, p) && Blank(p)
    ensures j + |p| <= |s| && forall i | j <= i < j + |p| :: IsSpace(s[i])
  {
    forall i | j <= i < j + |p|
      ensures IsSpace(s[i])
    {
      AtChar(s, j, p, i - j);
    }
  }

  /** The parts of the text of an element. */
  lemma AtRender(s: string, j: nat, t: Text)
    requires At(s, j, Render(t))
    ensures var k := j + |t.before|;
            && |Render(t)| == |t.before| + |RenderCore(t.core)| + |t.after|
            && At(s, j, t.before) && At(s, k, RenderCore(t.core)) && At(s, k + |RenderCore(t.core)|, t.after)
  {
    hide At, RenderCore;
    var b, c, a := t.before, RenderCore(t.core), t.after;
    assert b + c + a == b + (c + a);
    AtParts(s, j, b, c + a);
    AtParts(s, j + |b|, c, a);
  }

  /** The text of several elements: the first, a comma, the others. */
  lemma AtItems(s: string, j: nat, items: seq<Text>)
    requires |items| > 1 && At(s, j, RenderAll(items) + "]")
    ensures var p, rest := Render(items[0]), RenderAll(items[1..]);
            && |RenderAll(items)| == |p| + 1 + |rest|
            && At(s, j, p) && j + |p| < |s| && s[j + |p|] == ',' && At(s, j + |p| + 1, rest + "]")
  {
    hide At, Render;
    var p, rest := Render(items[0]), RenderAll(items[1..]);
    Reassociate(p, ",", rest, "]");
    AtParts(s, j, p, "," + (rest + "]"));
    AtParts(s, j + |p|, ",", rest + "]");
    AtChar(s, j + |p|, ",", 0);
    AtText(s, j + |p|, ",");
  }

  lemma Reassociate(a: string, b: string, c: string, d: string)
    ensures a + b + c + d == a + (b + (c + d))
  {
  }

  lemma AtItem(s: string, j: nat, items: seq<Text>)
    requires |items| <= 1 && At(s, j, RenderAll(items) + "]")
    ensures At(s, j, RenderAll(items)) && j + |RenderAll(items)| < |s| && s[j + |RenderAll(items)|] == ']'
    ensures |items| == 1 ==> RenderAll(items) == Render(items[0])
  {
    AtParts(s, j, RenderAll(items), "]");
    AtChar(s, j + |RenderAll(items)|, "]", 0);
  }

  // ----- quotes -----

  /** A closing quote is found where it is. */
  lemma {:induction false} QuoteAt(s: string, i: nat, k: nat, c: char)
    requires i <= k < |s| && s[k] == c && forall l | i <= l < k :: s[l] != c
    ensures NextQuote(s, i, c) == Some(k)
    decreases k - i
  {
    if i < k {
      QuoteAt(s, i + 1, k, c);
    }
  }

  /** A token at a position, character by character. */
  lemma TokenAt(s: string, j: nat, token: string)
    requires At(s, j, token)
    ensures j + |token| <= |s| && forall i | 0 <= i < |token| :: s[j + i] == token[i]
  {
    forall i | 0 <= i < |token|
      ensures s[j + i] == token[i]
    {
      AtChar(s, j, token, i);
    }
  }

  lemma QuotedAt(s: string, j: nat, token: string)
    requires At(s, j, token) && (SingleQuoted(token) || DoubleQuoted(token))
    ensures j + |token| <= |s| && s[j] == token[0] && NextQuote(s, j + 1, s[j]) == Some(j + |token| - 1)
  {
    TokenAt(s, j, token);
    var k := j + |token| - 1;
    forall l | j + 1 <= l < k
      ensures s[l] != s[j]
    {
      assert s[j + (l - j)] == token[l - j];
    }
    assert s[k] == token[|token| - 1];
    QuoteAt(s, j + 1, k, s[j]);
  }

  // ----- closing brackets -----

  /** Characters that the search for a closing bracket or brace passes over. */
  predicate Passed(c: char, target: char) {
    c != '\'' && c != '{' && c != '[' && c != target
  }

  lemma {:induction false} ClosePassed(s: string, j: nat, k: nat, lvl: int, target: char)
    requires j <= k <= |s| && forall i | j <= i < k :: Passed(s[i], target)
    ensures Close(s, j, lvl, target) == Close(s, k, lvl, target)
    decreases k - j
  {
    if j < k {
      ClosePassed(s, j + 1, k, lvl, target);
    }
  }

  /** The brace that closes a braced word is found, at the same level. */
  lemma BraceAt(s: string, j: nat, lvl: int, token: string)
    requires At(s, j, token) && Braced(token)
    ensures j + |token| <= |s| && s[j] == '{' && Close(s, j + 1, lvl, '}') == Some((j + |token| - 1, lvl))
  {
    TokenAt(s, j, token);
    var k := j + |token| - 1;
    forall i | j + 1 <= i < k
      ensures Passed(s[i], '}')
    {
      assert s[j + (i - j)] == token[i - j];
    }
    assert s[k] == token[|token| - 1];
    ClosePassed(s, j + 1, k, lvl, '}');
  }

  lemma CloseWord(s: string, j: nat, lvl: int, token: string)
    requires At(s, j, token) && IsWord(token)
    ensures Close(s, j, lvl, ']') == Close(s, j + |token|, lvl, ']')
  {
    TokenAt(s, j, token);
    if SingleQuoted(token) {
      QuotedAt(s, j, token);
    } else if Braced(token) {
      BraceAt(s, j, lvl, token);
    } else {
      forall i | j <= i < j + |token|
        ensures Passed(s[i], ']')
      {
        assert s[j + (i - j)] == token[i - j];
      }
      ClosePassed(s, j, j + |token|, lvl, ']');
    }
  }

  lemma CloseBlank(s: string, j: nat, lvl: int, p: string)
    requires At(s, j, p) && Blank(p)
    ensures Close(s, j, lvl, ']') == Close(s, j + |p|, lvl, ']')
  {
    AtBlank(s, j, p);
    ClosePassed(s, j, j + |p|, lvl, ']');
  }

  /** The text of an element is passed over, at the same level. */
  lemma {:induction false} CloseText(s: string, j: nat, lvl: int, t: Text, depth: nat)
    requires Fits(t, depth) && At(s, j, Render(t))
    ensures Close(s, j, lvl, ']') == Close(s, j + |Render(t)|, lvl, ']')
    decreases t, 1
  {
    hide At, Render, RenderCore, Close, IsWord;
    AtRender(s, j, t);
    var k := j + |t.before|;
    AtText(s, j, t.before);
    AtText(s, k, RenderCore(t.core));
    AtText(s, k + |RenderCore(t.core)|, t.after);
    CloseBlank(s, j, lvl, t.before);
    CloseBlank(s, k + |RenderCore(t.core)|, lvl, t.after);
    match t.core
    case Nothing => NothingRenders();
    case Word(token) =>
      WordRenders(token);
      CloseWord(s, k, lvl, token);
    case Brackets(items) => CloseBrackets(s, k, lvl, items, depth);
  }

  lemma NothingRenders()
    ensures RenderCore(Nothing) == ""
  {
  }

  lemma WordRenders(token: string)
    ensures RenderCore(Word(token)) == token
  {
  }

  lemma {:induction false} CloseBrackets(s: string, j: nat, lvl: int, items: seq<Text>, depth: nat)
    requires depth > 0 && AllFit(items, depth - 1) && At(s, j, RenderCore(Brackets(items)))
    ensures Close(s, j, lvl, ']') == Close(s, j + |RenderCore(Brackets(items))|, lvl, ']')
    decreases items, 2
  {
    hide At, RenderAll, Fits;
    AtBrackets(s, j, items);
    CloseItems(s, j + 1, lvl, items, depth - 1);
  }

  lemma AtBrackets(s: string, j: nat, items: seq<Text>)
    requires At(s, j, RenderCore(Brackets(items)))
    ensures j + |RenderCore(Brackets(items))| <= |s| && j < |s| && s[j] == '[' && At(s, j + 1, RenderAll(items) + "]")
    ensures |RenderCore(Brackets(items))| == |RenderAll(items)| + 2
  {
    hide At, RenderAll;
    assert "[" + RenderAll(items) + "]" == "[" + (RenderAll(items) + "]");
    AtParts(s, j, "[", RenderAll(items) + "]");
    AtText(s, j, "[");
    AtText(s, j, RenderCore(Brackets(items)));
    AtChar(s, j, "[", 0);
  }

  /** The bracket that closes the elements of a list is found, one level down. */
  lemma {:induction false} CloseItems(s: string, j: nat, lvl: int, items: seq<Text>, depth: nat)
    requires AllFit(items, depth) && At(s, j, RenderAll(items) + "]")
    ensures Close(s, j, lvl, ']') == Some((j + |RenderAll(items)|, lvl - 1))
    decreases items, 1
  {
    hide Render, RenderAll, At, Fits;
    if |items| > 1 {
      AtItems(s, j, items);
      CloseText(s, j, lvl, items[0], depth);
      CloseItems(s, j + |Render(items[0])| + 1, lvl, items[1..], depth);
    } else {
      AtItem(s, j, items);
      if |items| == 1 {
        CloseText(s, j, lvl, items[0], depth);
      } else {
        RenderNone(items);
      }
    }
  }

  lemma RenderNone(items: seq<Text>)
    requires items == []
    ensures RenderAll(items) == ""
  {
  }

  /** The level bookkeeping is exact, for any text: a bracket is one level down, a brace is none. */
  lemma {:induction false} CloseLevel(s: string, j: nat, lvl: int, target: char)
    requires j <= |s| && (target == ']' || target == '}')
    ensures var r := Close(s, j, lvl, target);
            r.Some? ==> s[r.value.0] == target && r.value.1 == if target == ']' then lvl - 1 else lvl
    decreases |s| - j
  {
    if j < |s| {
      if s[j] == '\'' {
        var q := NextQuote(s, j + 1, s[j]);
        if q.Some? {
          CloseLevel(s, q.value + 1, lvl, target);
        }
      } else if s[j] == '{' {
        CloseLevel(s, j + 1, lvl, '}');
        var c := Close(s, j + 1, lvl, '}');
        if c.Some? {
          CloseLevel(s, c.value.0 + 1, c.value.1, target);
        }
      } else if s[j] == '[' {
        CloseLevel(s, j + 1, lvl, ']');
        var c := Close(s, j + 1, lvl, ']');
        if c.Some? {
          CloseLevel(s, c.value.0 + 1, c.value.1 + 1, target);
        }
      } else if s[j] != target {
        CloseLevel(s, j + 1, lvl, target);
      }
    }
  }

  // ----- splitting -----

  lemma {:induction false} SplitOrdinary(s: string, j: nat, k: nat, start: nat, atStart: bool, seen: bool, lvl: int, parts: seq<string>)
    requires start <= j < k <= |s| && forall i | j <= i < k :: Ordinary(s[i]) || ((i > j || !atStart) && s[i] == '"')
    ensures SplitFrom(s, j, start, atStart, seen, lvl, parts) == SplitFrom(s, k, start, false, seen, lvl, parts)
    decreases k - j
  {
    if j + 1 < k {
      SplitOrdinary(s, j + 1, k, start, false, seen, lvl, parts);
    }
  }

  /** A word at the start of an element is passed over whole: what is between its quotes or braces does not split it. */
  lemma SplitWord(s: string, j: nat, seen: bool, lvl: int, parts: seq<string>, token: string)
    requires At(s, j, token) && IsWord(token)
    ensures SplitFrom(s, j, j, true, seen, lvl, parts) == SplitFrom(s, j + |token|, j, false, seen, lvl, parts)
  {
    TokenAt(s, j, token);
    if SingleQuoted(token) || DoubleQuoted(token) {
      QuotedAt(s, j, token);
    } else if Braced(token) {
      BraceAt(s, j, 0, token);
    } else {
      forall i | j <= i < j + |token|
        ensures Ordinary(s[i]) || (i > j && s[i] == '"')
      {
        assert s[j + (i - j)] == token[i - j];
      }
      SplitOrdinary(s, j, j + |token|, j, true, seen, lvl, parts);
    }
  }

  lemma SplitBlank(s: string, j: nat, start: nat, seen: bool, lvl: int, parts: seq<string>, p: string)
    requires start <= j && At(s, j, p) && Blank(p)
    ensures SplitFrom(s, j, start, false, seen, lvl, parts) == SplitFrom(s, j + |p|, start, false, seen, lvl, parts)
  {
    AtBlank(s, j, p);
    if p != "" {
      SplitOrdinary(s, j, j + |p|, start, false, seen, lvl, parts);
    }
  }

  /** The text of an element, from its first character that is no white space, is passed over within one part. */
  lemma SplitCore(s: string, j: nat, seen: bool, lvl: int, parts: seq<string>, t: Text, depth: nat)
    requires Fits(t, depth) && t.core != Nothing && At(s, j, RenderCore(t.core)) && At(s, j + |RenderCore(t.core)|, t.after)
    ensures SplitFrom(s, j, j, true, seen, lvl, parts) == SplitFrom(s, j + |PartOf(t)|, j, false, seen, lvl, parts)
  {
    hide At, RenderCore, IsWord;
    AtText(s, j, RenderCore(t.core));
    SplitBlank(s, j + |RenderCore(t.core)|, j, seen, lvl, parts, t.after);
    match t.core
    case Word(token) =>
      WordRenders(token);
      SplitWord(s, j, seen, lvl, parts, token);
    case Brackets(items) =>
      AtBrackets(s, j, items);
      CloseItems(s, j + 1, lvl + 1, items, depth - 1);
  }

  /** Where the text of an element begins, after the white space before it, and what is its part. */
  lemma PartAt(s: string, j: nat, t: Text, depth: nat)
    requires Fits(t, depth) && At(s, j, Render(t)) && j + |Render(t)| < |s|
    requires s[j + |Render(t)|] == ',' || s[j + |Render(t)|] == ']'
    ensures var k := SkipSpaces(s, j);
            && k + |PartOf(t)| == j + |Render(t)| && s[k..k + |PartOf(t)|] == PartOf(t)
            && (t.core != Nothing ==> At(s, k, RenderCore(t.core)) && At(s, k + |RenderCore(t.core)|, t.after))
  {
    hide CoreFits, At, Blank, SkipSpaces, Render, RenderCore;
    AtRender(s, j, t);
    CoreTrimmed(t.core, depth);
    var b, c, a := t.before, RenderCore(t.core), t.after;
    AtBlank(s, j, b);
    if t.core == Nothing {
      AtBlank(s, j + |b|, a);
      SkipSpacesTo(s, j, j + |Render(t)|);
    } else {
      AtChar(s, j + |b|, c, 0);
      SkipSpacesTo(s, j, j + |b|);
      AtBoth(s, j + |b|, c, a);
    }
  }

  lemma AtBoth(s: string, k: nat, c: string, a: string)
    requires At(s, k, c) && At(s, k + |c|, a)
    ensures s[k..k + |c + a|] == c + a
  {
    assert s[k..k + |c + a|] == s[k..k + |c|] + s[k + |c|..k + |c| + |a|];
  }

  /** From the start of an element to what follows it. */
  lemma SplitText(s: string, j: nat, seen: bool, lvl: int, parts: seq<string>, t: Text, depth: nat) returns (f: bool)
    requires Fits(t, depth) && At(s, j, Render(t)) && j + |Render(t)| < |s|
    requires s[j + |Render(t)|] == ',' || s[j + |Render(t)|] == ']'
    ensures var k := SkipSpaces(s, j);
            && k <= j + |Render(t)| && s[k..j + |Render(t)|] == PartOf(t)
            && SplitFrom(s, k, k, true, seen, lvl, parts) == SplitFrom(s, j + |Render(t)|, k, f, seen, lvl, parts)
  {
    hide Render, SplitFrom, SkipSpaces, CoreFits;
    PartAt(s, j, t, depth);
    f := true;
    if t.core != Nothing {
      f := false;
      SplitCore(s, SkipSpaces(s, j), seen, lvl, parts, t, depth);
    }
  }

  lemma SplitComma(s: string, k: nat, start: nat, f: bool, seen: bool, lvl: int, parts: seq<string>)
    requires start <= k < |s| && s[k] == ','
    ensures var next := SkipSpaces(s, k + 1);
            SplitFrom(s, k, start, f, seen, lvl, parts) == SplitFrom(s, next, next, true, true, lvl, parts + [s[start..k]])
  {
  }

  lemma SplitEnd(s: string, k: nat, start: nat, f: bool, seen: bool, parts: seq<string>)
    requires start <= k < |s| && s[k] == ']' && SkipSpaces(s, k + 1) == |s|
    ensures SplitFrom(s, k, start, f, seen, 1, parts) == Split(true, if start < k || seen then parts + [s[start..k]] else parts)
  {
  }

  /** The elements of a list are split into their parts. */
  lemma {:induction false} SplitItems(s: string, j: nat, seen: bool, parts: seq<string>, items: seq<Text>, depth: nat)
    requires items != [] && AllFit(items, depth) && At(s, j, RenderAll(items) + "]")
    requires j + |RenderAll(items)| < |s| && SkipSpaces(s, j + |RenderAll(items)| + 1) == |s|
    ensures var k := SkipSpaces(s, j);
            SplitFrom(s, k, k, true, seen, 1, parts) == Split(true, if Lone(items) && !seen then parts else parts + Parts(items))
    decreases |items|
  {
    hide Render, RenderAll, At, SplitFrom, Fits, SkipSpaces, PartOf;
    var t := items[0];
    if |items| == 1 {
      AtItem(s, j, items);
      var f := SplitText(s, j, seen, 1, parts, t, depth);
      SplitEnd(s, j + |Render(t)|, SkipSpaces(s, j), f, seen, parts);
      PartEmpty(t, depth);
      assert Parts(items) == [PartOf(t)];
    } else {
      AtItems(s, j, items);
      var f := SplitText(s, j, seen, 1, parts, t, depth);
      SplitComma(s, j + |Render(t)|, SkipSpaces(s, j), f, seen, 1, parts);
      SplitItems(s, j + |Render(t)| + 1, true, parts + [PartOf(t)], items[1..], depth);
      assert Parts(items) == [PartOf(t)] + Parts(items[1..]);
      assert parts + [PartOf(t)] + Parts(items[1..]) == parts + ([PartOf(t)] + Parts(items[1..]));
    }
  }

  lemma PartEmpty(t: Text, depth: nat)
    requires Fits(t, depth)
    ensures PartOf(t) == "" <==> t.core == Nothing
  {
    CoreTrimmed(t.core, depth);
  }

  /** A list, written with any white space, is split into the parts of its elements; brackets with nothing between them
      have none. */
  lemma SplitWritten(t: Text, depth: nat)
    requires Fits(t, depth) && t.core.Brackets?
    ensures SplitList(Render(t)) == Split(true, if Lone(t.core.items) then [] else Parts(t.core.items))
  {
    hide RenderAll, SplitFrom, Fits, RenderCore;
    var s, items, i := Render(t), t.core.items, |t.before|;
    WrittenAt(t, depth);
    var e := i + 1 + |RenderAll(items)|;
    if items == [] {
      RenderNone(items);
      SkipSpacesTo(s, i + 1, i + 1);
      SplitEnd(s, i + 1, i + 1, true, false, []);
    } else {
      SplitItems(s, i + 1, false, [], items, depth - 1);
      assert [] + Parts(items) == Parts(items);
    }
  }

  lemma ItemsFit(t: Text, depth: nat)
    requires Fits(t, depth) && t.core.Brackets?
    ensures depth > 0 && AllFit(t.core.items, depth - 1)
  {
  }

  /** Where the brackets of a written list are. */
  lemma WrittenAt(t: Text, depth: nat)
    requires Fits(t, depth) && t.core.Brackets?
    ensures var s, i, n := Render(t), |t.before|, |RenderAll(t.core.items)|;
            && i + n + 2 <= |s| && SkipSpaces(s, 0) == i && s[i] == '[' && At(s, i + 1, RenderAll(t.core.items) + "]")
            && s[i + 1 + n] == ']' && SkipSpaces(s, i + 1 + n + 1) == |s| && depth > 0 && AllFit(t.core.items, depth - 1)
  {
    ItemsFit(t, depth);
    hide CoreFits, RenderCore, RenderAll, Blank, SkipSpaces, AllFit;
    var s, i, items := Render(t), |t.before|, t.core.items;
    assert s[0..|s|] == s;
    AtRender(s, 0, t);
    AtBrackets(s, i, items);
    AtBlank(s, 0, t.before);
    SkipSpacesTo(s, 0, i);
    var n := |RenderAll(items)|;
    AtChar(s, i + 1, RenderAll(items) + "]", n);
    AtBlank(s, i + n + 2, t.after);
    SkipSpacesTo(s, i + n + 2, |s|);
  }

  // ----- nothing is lost -----

  /** The parts, each after some white space, with commas between them. */
  function Woven(gaps: seq<string>, parts: seq<string>): string
    requires |gaps| == |parts|
  {
    if parts == [] then "" else Woven(gaps[..|gaps| - 1], parts[..|parts| - 1]) + gaps[|gaps| - 1] + parts[|parts| - 1] + ","
  }

  ghost predicate AllBlank(gaps: seq<string>) {
    forall i | 0 <= i < |gaps| :: Blank(gaps[i])
  }

  /** What was accepted is opening bracket, parts with commas between them, the last one or white space alone, closing
      bracket. */
  ghost predicate Accepted(s: string, head: string, gaps: seq<string>, parts: seq<string>, last: string, tail: string) {
    && |gaps| <= |parts| <= |gaps| + 1 && AllBlank(gaps) && Blank(tail)
    && s == head + Woven(gaps, parts[..|gaps|]) + last + "]" + tail
    && if |parts| == |gaps| then Blank(last) && gaps == [] else exists gap :: Blank(gap) && last == gap + parts[|gaps|]
  }

  lemma {:induction false} SplitFromLosesNothing(s: string, j: nat, start: nat, atStart: bool, seen: bool, parts: seq<string>,
                                                 head: string, gaps: seq<string>, gap: string)
    returns (gaps': seq<string>, last: string, tail: string)
    requires start <= j <= |s| && |gaps| == |parts| && AllBlank(gaps) && Blank(gap) && (seen <==> parts != [])
    requires s[..start] == head + Woven(gaps, parts) + gap && SplitFrom(s, j, start, atStart, seen, 1, parts).ok
    ensures Accepted(s, head, gaps', SplitFrom(s, j, start, atStart, seen, 1, parts).parts, last, tail)
    decreases |s| - j
  {
    hide Woven, Blank, AllBlank, Accepted, Close, NextQuote;
    if s[j] == '[' {
      CloseLevel(s, j + 1, 2, ']');
      var c := Close(s, j + 1, 2, ']');
      gaps', last, tail := SplitFromLosesNothing(s, c.value.0 + 1, start, false, seen, parts, head, gaps, gap);
    } else if (s[j] == '\'' || s[j] == '"') && atStart {
      var q := NextQuote(s, j + 1, s[j]);
      gaps', last, tail := SplitFromLosesNothing(s, (if q.Some? then q.value else j) + 1, start, false, seen, parts, head, gaps, gap);
    } else if s[j] == '{' {
      var c := Close(s, j + 1, 0, '}');
      gaps', last, tail := SplitFromLosesNothing(s, c.value.0 + 1, start, false, seen, parts, head, gaps, gap);
    } else if s[j] == ',' {
      var next, part := SkipSpaces(s, j + 1), s[start..j];
      SkippedBlank(s, j + 1);
      WovenNext(s, start, j, next, head, gaps, parts, gap);
      gaps', last, tail := SplitFromLosesNothing(s, next, next, true, true, parts + [part], head, gaps + [gap], s[j + 1..next]);
    } else if s[j] == ']' {
      SkippedBlank(s, j + 1);
      assert s[j + 1..|s|] == s[j + 1..];
      gaps', last, tail := gaps, gap + s[start..j], s[j + 1..];
      AcceptedEnd(s, start, j, head, gaps, parts, gap, seen);
    } else {
      gaps', last, tail := SplitFromLosesNothing(s, j + 1, start, false, seen, parts, head, gaps, gap);
    }
  }

  lemma WovenNext(s: string, start: nat, j: nat, next: nat, head: string, gaps: seq<string>, parts: seq<string>, gap: string)
    requires start <= j < next <= |s| && s[j] == ',' && |gaps| == |parts| && s[..start] == head + Woven(gaps, parts) + gap
    requires AllBlank(gaps) && Blank(gap)
    ensures s[..next] == head + Woven(gaps + [gap], parts + [s[start..j]]) + s[j + 1..next] && AllBlank(gaps + [gap])
  {
    var part := s[start..j];
    WovenLast(gaps, parts, gap, part);
    hide Woven, Blank;
    var w, tail := Woven(gaps, parts), s[j + 1..next];
    CutAt(s, start, j, next);
    Associate(head, w, gap);
    Associate(head, w + gap, part);
    Associate(head, w + gap + part, ",");
  }

  lemma Associate(a: string, b: string, c: string)
    ensures a + b + c == a + (b + c)
  {
  }

  lemma WovenLast(gaps: seq<string>, parts: seq<string>, gap: string, part: string)
    requires |gaps| == |parts|
    ensures Woven(gaps + [gap], parts + [part]) == Woven(gaps, parts) + gap + part + ","
  {
    assert (gaps + [gap])[..|gaps|] == gaps && (parts + [part])[..|parts|] == parts;
  }

  lemma CutAt(s: string, start: nat, j: nat, next: nat)
    requires start <= j < next <= |s|
    ensures s[..next] == s[..start] + s[start..j] + [s[j]] + s[j + 1..next]
  {
  }

  lemma AcceptedEnd(s: string, start: nat, j: nat, head: string, gaps: seq<string>, parts: seq<string>, gap: string, seen: bool)
    requires start <= j < |s| && s[j] == ']' && |gaps| == |parts| && AllBlank(gaps) && Blank(gap) && (seen <==> parts != [])
    requires s[..start] == head + Woven(gaps, parts) + gap && Blank(s[j + 1..])
    ensures Accepted(s, head, gaps, if start < j || seen then parts + [s[start..j]] else parts, gap + s[start..j], s[j + 1..])
  {
    hide Woven, Blank;
    var part, w := s[start..j], Woven(gaps, parts);
    assert (parts + [part])[..|gaps|] == parts && parts[..|gaps|] == parts;
    CutAt(s, start, j, |s|);
    assert s[..|s|] == s;
    assert head + w + gap + part == head + w + (gap + part);
    assert gap + "" == gap;
  }

  /** Of a text that is a list, splitting loses nothing but white space, brackets and commas between elements. */
  lemma SplitLosesNothing(s: string) returns (lead: string, gaps: seq<string>, last: string, tail: string)
    requires SplitList(s).ok
    ensures Blank(lead) && Accepted(s, lead + "[", gaps, SplitList(s).parts, last, tail)
  {
    var i := SkipSpaces(s, 0);
    var j := SkipSpaces(s, i + 1);
    SkipSpacesExact(s, 0);
    SkipSpacesExact(s, i + 1);
    lead := s[..i];
    var gap := s[i + 1..j];
    assert s[..j] == lead + "[" + Woven([], []) + gap;
    gaps, last, tail := SplitFromLosesNothing(s, j, j, true, false, [], lead + "[", [], gap);
  }

  // ----- printed values -----

  predicate PlainChar(c: char) {
    !IsSpace(c) && Ordinary(c)
  }

  predicate PlainText(s: string) {
    forall i | 0 <= i < |s| :: PlainChar(s[i])
  }

  /** A token that is not empty, has no character of its own meaning and is not the word null. */
  predicate Plain(token: string) {
    PlainText(token) && !IsNull(token)
  }

  /** A value of lists nested `depth` deep over plain tokens; any part of it may be null. */
  predicate Printable(x: Value<string>, depth: nat) {
    match x
    case Null => true
    case Leaf(token) => depth == 0 && Plain(token)
    case List(es) => depth > 0 && forall i | 0 <= i < |es| :: Printable(es[i], depth - 1)
    case Struct(_) => false
  }

  /** The value with every list of one null emptied. */
  function Normalized(x: Value<string>): Value<string> {
    match x
    case List(es) => if es == [Null] then List([]) else List(NormalizedAll(es))
    case _ => x
  }

  function NormalizedAll(es: seq<Value<string>>): (r: seq<Value<string>>)
    ensures |r| == |es|
  {
    if es == [] then [] else NormalizedAll(es[..|es| - 1]) + [Normalized(es[|es| - 1])]
  }

  lemma {:induction false} NormalizedAt(es: seq<Value<string>>, i: nat)
    requires i < |es|
    ensures NormalizedAll(es)[i] == Normalized(es[i])
    decreases |es|
  {
    if i < |es| - 1 {
      NormalizedAt(es[..|es| - 1], i);
    }
  }

  predicate NoLoneNull(x: Value<string>) {
    match x
    case List(es) => es != [Null] && forall i | 0 <= i < |es| :: NoLoneNull(es[i])
    case _ => true
  }

  /** Only a list of one null is changed. */
  lemma {:induction false} NormalizedExact(x: Value<string>)
    requires !x.Struct?
    ensures Normalized(x) == x <==> NoLoneNull(x)
    decreases x
  {
    if x.List? && x.elements != [Null] {
      var es := x.elements;
      forall i | 0 <= i < |es|
        ensures NormalizedAll(es)[i] == es[i] <==> NoLoneNull(es[i])
      {
        NormalizedAt(es, i);
        if !es[i].Struct? {
          NormalizedExact(es[i]);
        }
      }
      if Normalized(x) == x {
        assert forall i | 0 <= i < |es| :: NormalizedAll(es)[i] == es[i];
      } else {
        assert NormalizedAll(es) != es;
      }
    }
  }

  /** A printed value is text without white space. */
  function CoreOf(x: Value<string>): Core {
    match x
    case Null => Nothing
    case Leaf(token) => Word(token)
    case List(es) => Brackets(seq(|es|, i requires 0 <= i < |es| => Text("", CoreOf(es[i]), "")))
    case Struct(_) => Nothing
  }

  lemma {:induction false} PrintRenders(x: Value<string>)
    ensures RenderCore(CoreOf(x)) == Print(x)
    decreases x, 0
  {
    if x.List? {
      PrintAllRenders(x.elements, CoreOf(x).items);
    }
  }

  lemma {:induction false} PrintAllRenders(es: seq<Value<string>>, items: seq<Text>)
    requires |items| == |es| && forall i | 0 <= i < |es| :: items[i] == Text("", CoreOf(es[i]), "")
    ensures RenderAll(items) == PrintAll(es)
    decreases es, 1
  {
    if es != [] {
      PrintRenders(es[0]);
      assert Render(items[0]) == Print(es[0]);
      if |es| > 1 {
        PrintAllRenders(es[1..], items[1..]);
      }
    }
  }

  /** The printed value, with any white space before and after its elements. */
  ghost predicate Spaced(c: Core, x: Value<string>) {
    match x
    case Null => c == Nothing
    case Leaf(token) => c == Word(token)
    case List(es) =>
      && c.Brackets? && |c.items| == |es|
      && forall i | 0 <= i < |es| :: Blank(c.items[i].before) && Blank(c.items[i].after) && Spaced(c.items[i].core, es[i])
    case Struct(_) => false
  }

  lemma {:induction false} PrintedSpaced(x: Value<string>, depth: nat)
    requires Printable(x, depth)
    ensures Spaced(CoreOf(x), x)
    decreases x
  {
    if x.List? {
      forall i | 0 <= i < |x.elements|
        ensures Spaced(CoreOf(x).items[i].core, x.elements[i])
      {
        PrintedSpaced(x.elements[i], depth - 1);
      }
    }
  }

  /** White space does not change what a printed value stands for: itself, up to lists of one null. */
  lemma {:induction false} SpacedFits(c: Core, x: Value<string>, depth: nat)
    requires Spaced(c, x) && Printable(x, depth)
    ensures CoreFits(c, depth) && Meaning(c) == Normalized(x)
    decreases x, 0
  {
    match x
    case Null =>
    case Leaf(token) =>
    case List(es) =>
      forall i | 0 <= i < |es|
        ensures Fits(c.items[i], depth - 1) && Meaning(c.items[i].core) == Normalized(es[i])
      {
        SpacedFits(c.items[i].core, es[i], depth - 1);
      }
      MeaningsPrinted(es, c.items);
      assert Lone(c.items) <==> es == [Null] by {
        if |es| == 1 {
          assert es == [es[0]] && Printable(es[0], depth - 1);
        }
      }
  }

  lemma {:induction false} MeaningsPrinted(es: seq<Value<string>>, items: seq<Text>)
    requires |items| == |es| && forall i | 0 <= i < |es| :: Meaning(items[i].core) == Normalized(es[i])
    ensures Meanings(items) == NormalizedAll(es)
    decreases |es|
  {
    hide Meaning, Normalized;
    if es != [] {
      MeaningsPrinted(es[..|es| - 1], items[..|es| - 1]);
    }
  }
}
