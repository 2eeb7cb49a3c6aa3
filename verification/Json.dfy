/**
  The JSON subset: reader and printer.  A C string is its characters up to and including the NUL
  that ends it; the cursor is what is left of it.
 */
module Json {
  import opened Words
  import opened Numerals

  const NUL: char := '\0'

  datatype Json =
    | JDict(entries: seq<Entry>)   // in key order, as std::map keeps them
    | JArray(elems: seq<Json>)
    | JInt(i: int)
    | JString(s: string)

  datatype Entry = Entry(key: string, val: Json)

  /** A value and what is left of the input, or "bad json". */
  datatype Result<+T> = Ok(value: T, rest: string) | Bad

  /** The first NUL is the last character. */
  predicate CString(s: string) {
    s != [] && (if s[0] == NUL then |s| == 1 else CString(s[1..]))
  }

  lemma {:induction false} CStringHasOneNul(s: string)
    ensures CString(s) <==> s != [] && s[|s| - 1] == NUL && forall i | 0 <= i < |s| - 1 :: s[i] != NUL
    decreases |s|
  {
    if s != [] && s[0] != NUL {
      CStringHasOneNul(s[1..]);
      if CString(s) {
        assert forall i | 0 < i < |s| :: s[i] == s[1..][i - 1];
      } else if |s| > 1 {
        assert forall i | 0 <= i < |s| - 1 :: s[1..][i] == s[i + 1];
      }
    }
  }

  // ---- reading ----

  predicate IsSeparator(c: char) {
    c == ' ' || c == '\t' || c == '\n' || c == '\r'
  }

  predicate IsDigit(c: char) {
    '0' <= c <= '9'
  }

  /** Where skip_separators stops; at the NUL it throws. */
  function Skip(s: string): (r: string)
    requires CString(s)
    ensures CString(r) && |r| <= |s| && !IsSeparator(r[0])
    decreases |s|
  {
    if IsSeparator(s[0]) then Skip(s[1..]) else s
  }

  /** The digits the input starts with. */
  function DigitRun(s: string): (r: string)
    ensures |r| <= |s| && r == s[..|r|] && AllDigits(r)
    ensures |r| < |s| ==> !IsDigit(s[|r|])
  {
    if s == [] || !IsDigit(s[0]) then "" else [s[0]] + DigitRun(s[1..])
  }

  /** A run of digits ends before the NUL, and the rest is a C string again. */
  lemma {:induction false} RunEnds(s: string)
    requires CString(s)
    ensures |DigitRun(s)| < |s| && CString(s[|DigitRun(s)|..])
    decreases |s|
  {
    if IsDigit(s[0]) {
      RunEnds(s[1..]);
      assert s[|DigitRun(s)|..] == s[1..][|DigitRun(s[1..])|..];
    }
  }

  /** atoi on a sign or digit, and the cursor behind what it read. */
  function ReadInt(s: string): (r: Result<int>)
    requires CString(s) && (IsDigit(s[0]) || s[0] == '-')
    ensures r.Ok? && CString(r.rest) && |r.rest| < |s|
  {
    var body := if s[0] == '-' then s[1..] else s;
    var run := DigitRun(body);
    RunEnds(body);
    Ok(if s[0] == '-' then 0 - Number(run) else Number(run), body[|run|..])
  }

  /** The characters up to the closing quote. */
  function ReadChars(s: string): (r: Result<string>)
    requires CString(s)
    ensures r.Ok? ==> CString(r.rest) && |r.rest| < |s|
    decreases |s|
  {
    if s[0] == '"' then Ok("", s[1..])
    else if s[0] == NUL then Bad
    else
      var r := ReadChars(s[1..]);
      if r.Bad? then Bad else Ok([s[0]] + r.value, r.rest)
  }

  function ReadString(s: string): (r: Result<string>)
    requires CString(s)
    ensures r.Ok? ==> CString(r.rest) && |r.rest| < |s|
  {
    if s[0] != '"' then Bad else ReadChars(s[1..])
  }

  /** std::map's order on keys. */
  predicate KeyLess(a: string, b: string)
    decreases |a|
  {
    b != [] && (a == [] || a[0] < b[0] || (a[0] == b[0] && KeyLess(a[1..], b[1..])))
  }

  /** std::map::insert: in its place, unless the key is already there. */
  function Insert(es: seq<Entry>, e: Entry): seq<Entry> {
    if es == [] then [e]
    else if KeyLess(es[0].key, e.key) then [es[0]] + Insert(es[1..], e)
    else if es[0].key == e.key then es
    else [e] + es
  }

  function ReadVar(s: string): (r: Result<Json>)
    requires CString(s)
    ensures r.Ok? ==> CString(r.rest) && |r.rest| < |s|
    decreases |s|, 1
  {
    var c := Skip(s);
    if c[0] == NUL then Bad
    else if c[0] == '{' then
      var r := ReadEntries(c[1..], []);
      if r.Bad? then Bad else Ok(JDict(r.value), r.rest)
    else if c[0] == '[' then
      var r := ReadElements(c[1..], []);
      if r.Bad? then Bad else Ok(JArray(r.value), r.rest)
    else if c[0] == '"' then
      var r := ReadString(c);
      if r.Bad? then Bad else Ok(JString(r.value), r.rest)
    else if IsDigit(c[0]) || c[0] == '-' then
      var r := ReadInt(c);
      Ok(JInt(r.value), r.rest)
    else Bad
  }

  /** The separators and the optional comma behind an entry or element. */
  function SkipComma(s: string): (r: Result<()>)
    requires CString(s)
    ensures r.Ok? ==> CString(r.rest) && |r.rest| <= |s|
  {
    var c := Skip(s);
    if c[0] == NUL then Bad else Ok((), if c[0] == ',' then c[1..] else c)
  }

  /** The key, the colon, and the separators round it. */
  function ReadKey(s: string): (r: Result<string>)
    requires CString(s)
    ensures r.Ok? ==> CString(r.rest) && |r.rest| < |s|
  {
    var k := ReadString(s);
    if k.Bad? then Bad
    else
      var c := Skip(k.rest);
      if c[0] != ':' then Bad else Ok(k.value, Skip(c[1..]))
  }

  /** The loop of read_dict, behind its brace. */
  function ReadEntries(s: string, done: seq<Entry>): (r: Result<seq<Entry>>)
    requires CString(s)
    ensures r.Ok? ==> CString(r.rest) && |r.rest| < |s|
    decreases |s|, 2
  {
    var c := Skip(s);
    if c[0] == NUL then Bad
    else if c[0] == '}' then Ok(done, c[1..])
    else
      var k := ReadKey(c);
      if k.Bad? then Bad
      else
        var v := ReadVar(k.rest);
        if v.Bad? then Bad
        else
          var n := SkipComma(v.rest);
          if n.Bad? then Bad else ReadEntries(n.rest, Insert(done, Entry(k.value, v.value)))
  }

  /** The loop of read_array, behind its bracket. */
  function ReadElements(s: string, done: seq<Json>): (r: Result<seq<Json>>)
    requires CString(s)
    ensures r.Ok? ==> CString(r.rest) && |r.rest| < |s|
    decreases |s|, 2
  {
    var c := Skip(s);
    if c[0] == NUL then Bad
    else if c[0] == ']' then Ok(done, c[1..])
    else
      var v := ReadVar(c);
      if v.Bad? then Bad
      else
        var n := SkipComma(v.rest);
        if n.Bad? then Bad else ReadElements(n.rest, done + [v.value])
  }

  // ---- printing ----

  function Indent(n: nat): string {
    if n == 0 then "" else "\t" + Indent(n - 1)
  }

  /** std::to_string */
  function IntText(i: int): string {
    if i < 0 then "-" + Whole(-i) else Whole(i)
  }

  function ToStr(v: Json, indent: nat): string
    decreases v, 0
  {
    match v
    case JInt(i) => IntText(i)
    case JString(s) => "\"" + s + "\""
    case JDict(es) => "{\n" + (EntriesText(es, indent + 1) + (Indent(indent) + "}"))
    case JArray(vs) => "[\n" + (ElementsText(vs, indent + 1) + (Indent(indent) + "]"))
  }

  function LineEnd(last: bool): string {
    if last then "\n" else ",\n"
  }

  /** The nested values of a dict are indented one step further than its keys. */
  function EntriesText(es: seq<Entry>, indent: nat): string
    decreases es, 1
  {
    if es == [] then ""
    else
      Indent(indent) + ("\"" + es[0].key + "\"" + (": " + (ToStr(es[0].val, indent + 1)
        + (LineEnd(|es| == 1) + EntriesText(es[1..], indent)))))
  }

  /** The elements of an array are printed as if at the outermost level. */
  function ElementsText(vs: seq<Json>, indent: nat): string
    decreases vs, 1
  {
    if vs == [] then ""
    else Indent(indent) + (ToStr(vs[0], 0) + (LineEnd(|vs| == 1) + ElementsText(vs[1..], indent)))
  }

  // ---- round trip ----

  /** Strings the format can carry: it has no escapes. */
  predicate Plain(s: string) {
    forall i | 0 <= i < |s| :: s[i] != '"' && s[i] != NUL
  }

  predicate WellFormed(v: Json)
    decreases v, 0
  {
    match v
    case JInt(i) => -0x8000_0000 <= i < 0x8000_0000
    case JString(s) => Plain(s)
    case JArray(vs) => forall i | 0 <= i < |vs| :: WellFormed(vs[i])
    case JDict(es) =>
      Sorted(es) && forall i | 0 <= i < |es| :: Plain(es[i].key) && WellFormed(es[i].val)
  }

  lemma {:induction false} SkipIndent(n: nat, s: string)
    requires CString(s)
    ensures CString(Indent(n) + s) && Skip(Indent(n) + s) == Skip(s)
  {
    if n == 0 {
      assert Indent(0) + s == s;
    } else {
      SkipIndent(n - 1, s);
      assert Indent(n) + s == "\t" + (Indent(n - 1) + s);
      PrependC('\t', Indent(n - 1) + s);
    }
  }

  lemma PrependC(c: char, s: string)
    requires CString(s) && c != NUL
    ensures CString([c] + s) && ([c] + s)[0] == c && ([c] + s)[1..] == s
  {
  }

  lemma {:induction false} ReadCharsBack(s: string, rest: string)
    requires Plain(s) && CString(rest)
    ensures CString(s + "\"" + rest) && ReadChars(s + "\"" + rest) == Ok(s, rest)
    decreases |s|
  {
    if s == [] {
      PrependC('"', rest);
      assert s + "\"" + rest == ['"'] + rest;
    } else {
      ReadCharsBack(s[1..], rest);
      var tail := s[1..] + "\"" + rest;
      PrependC(s[0], tail);
      assert s + "\"" + rest == [s[0]] + tail;
      assert [s[0]] + s[1..] == s;
    }
  }

  lemma ReadStringBack(s: string, rest: string)
    requires Plain(s) && CString(rest)
    ensures var t := ("\"" + s + "\"") + rest;
            CString(t) && t[0] == '"' && ReadString(t) == Ok(s, rest)
  {
    ReadCharsBack(s, rest);
    PrependC('"', s + "\"" + rest);
    assert ("\"" + s + "\"") + rest == ['"'] + (s + "\"" + rest);
  }

  lemma {:induction false} DigitRunBack(d: string, rest: string)
    requires AllDigits(d) && (rest == [] || !IsDigit(rest[0]))
    ensures DigitRun(d + rest) == d
    decreases |d|
  {
    if d == [] {
      assert d + rest == rest;
    } else {
      DigitRunBack(d[1..], rest);
      assert (d + rest)[0] == d[0] && (d + rest)[1..] == d[1..] + rest;
    }
  }

  lemma {:induction false} DigitsC(d: string, rest: string)
    requires AllDigits(d) && CString(rest)
    ensures CString(d + rest)
    decreases |d|
  {
    if d == [] {
      assert d + rest == rest;
    } else {
      DigitsC(d[1..], rest);
      PrependC(d[0], d[1..] + rest);
      assert d + rest == [d[0]] + (d[1..] + rest);
    }
  }

  lemma ReadWholeBack(m: nat, rest: string)
    requires CString(rest) && !IsDigit(rest[0])
    ensures var t := Whole(m) + rest;
            CString(t) && IsDigit(t[0]) && DigitRun(t) == Whole(m) && t[|Whole(m)|..] == rest
  {
    WholeReads(m);
    DigitsC(Whole(m), rest);
    DigitRunBack(Whole(m), rest);
  }

  lemma ReadIntBack(i: int, rest: string)
    requires CString(rest) && !IsDigit(rest[0])
    ensures var t := IntText(i) + rest;
            && CString(t) && (IsDigit(t[0]) || t[0] == '-')
            && ReadInt(t) == Ok(i, rest)
  {
    var m := if i < 0 then -i else i;
    WholeReads(m);
    ReadWholeBack(m, rest);
    if i < 0 {
      PrependC('-', Whole(m) + rest);
      assert IntText(i) + rest == ['-'] + (Whole(m) + rest);
    }
  }

  /** A larger key goes to the end. */
  lemma {:induction false} InsertLast(es: seq<Entry>, e: Entry)
    requires forall i | 0 <= i < |es| :: KeyLess(es[i].key, e.key)
    ensures Insert(es, e) == es + [e]
    decreases |es|
  {
    if es != [] {
      InsertLast(es[1..], e);
      assert es == [es[0]] + es[1..];
    }
  }

  /** Something to read, behind at most one line end. */
  lemma SkipLineEnd(last: bool, s: string)
    requires CString(s) && Skip(s)[0] != NUL && (last ==> Skip(s)[0] != ',')
    ensures CString(LineEnd(last) + s)
    ensures !IsDigit((LineEnd(last) + s)[0])
    ensures var n := SkipComma(LineEnd(last) + s);
            n.Ok? && Skip(n.rest) == Skip(s)
  {
    PrependC('\n', s);
    assert ("\n" + s)[1..] == s;
    if !last {
      PrependC(',', "\n" + s);
      assert LineEnd(last) + s == [','] + ("\n" + s);
    }
  }

  /** What a printed value starts with. */
  predicate Starts(c: char) {
    c == '{' || c == '[' || c == '"' || c == '-' || IsDigit(c)
  }

  /**
    Printing and then reading is the identity, at every indentation, and consumes exactly what was
    printed; behind a number the text must not go on with a digit.
   */
  lemma {:induction false} RoundTrip(v: Json, indent: nat, rest: string)
    requires WellFormed(v) && CString(rest) && (v.JInt? ==> !IsDigit(rest[0]))
    ensures var t := ToStr(v, indent) + rest;
            CString(t) && Starts(t[0]) && ReadVar(t) == Ok(v, rest)
    decreases v, 0
  {
    match v
    case JInt(i) => ReadIntBack(i, rest);
    case JString(s) => ReadStringBack(s, rest);
    case JArray(vs) =>
      ArrayBody(vs, indent, rest);
      ArrayFrame(vs, indent, rest);
    case JDict(es) =>
      DictBody(es, indent, rest);
      DictFrame(es, indent, rest);
  }

  lemma {:induction false} ArrayBody(vs: seq<Json>, indent: nat, rest: string)
    requires (forall i | 0 <= i < |vs| :: WellFormed(vs[i])) && CString(rest)
    ensures var body := ElementsText(vs, indent + 1) + ((Indent(indent) + "]") + rest);
            CString(body) && ReadElements(body, []) == Ok(vs, rest)
    decreases vs, 2
  {
    Closing(indent, ']', rest);
    ElementsBack(vs, indent + 1, [], (Indent(indent) + "]") + rest, rest);
    assert [] + vs == vs;
  }

  lemma {:induction false} DictBody(es: seq<Entry>, indent: nat, rest: string)
    requires GoodEntries(es) && Sorted(es) && CString(rest)
    ensures var body := EntriesText(es, indent + 1) + ((Indent(indent) + "}") + rest);
            CString(body) && ReadEntries(body, []) == Ok(es, rest)
    decreases es, 2
  {
    hide ReadVar, ReadKey, ReadEntries, SkipComma, Insert, ToStr, EntriesText, KeyLess, WellFormed, Indent, Sorted,
      GoodEntries;
    Closing(indent, '}', rest);
    EntriesBack(es, indent + 1, [], es, (Indent(indent) + "}") + rest, rest);
  }

  /** An opening bracket hands over to the loop of the array. */
  lemma OpenArray(s: string)
    requires CString(s)
    ensures CString(['['] + s)
    ensures ReadVar(['['] + s) ==
            var r := ReadElements(s, []); if r.Bad? then Bad else Ok(JArray(r.value), r.rest)
  {
    PrependC('[', s);
  }

  lemma OpenDict(s: string)
    requires CString(s)
    ensures CString(['{'] + s)
    ensures ReadVar(['{'] + s) ==
            var r := ReadEntries(s, []); if r.Bad? then Bad else Ok(JDict(r.value), r.rest)
  {
    PrependC('{', s);
  }

  /** The loops start by skipping, so inputs that skip alike read alike. */
  lemma SameLoop(a: string, b: string)
    requires CString(a) && CString(b) && Skip(a) == Skip(b)
    ensures forall d :: ReadElements(a, d) == ReadElements(b, d)
    ensures forall d :: ReadEntries(a, d) == ReadEntries(b, d)
  {
  }

  lemma SkipNewline(s: string)
    requires CString(s)
    ensures CString("\n" + s) && Skip("\n" + s) == Skip(s)
  {
    PrependC('\n', s);
  }

  lemma ArrayPieces(vs: seq<Json>, indent: nat, rest: string)
    ensures ToStr(JArray(vs), indent) + rest
         == ['['] + ("\n" + (ElementsText(vs, indent + 1) + ((Indent(indent) + "]") + rest)))
  {
    var body, close := ElementsText(vs, indent + 1), Indent(indent) + "]";
    ConcatAssoc("[\n", body + close, rest);
    ConcatAssoc(body, close, rest);
    assert "[\n" + (body + (close + rest)) == ['['] + ("\n" + (body + (close + rest)));
  }

  /** A printed array reads back if what is between its brackets does. */
  lemma ArrayFrame(vs: seq<Json>, indent: nat, rest: string)
    requires var body := ElementsText(vs, indent + 1) + ((Indent(indent) + "]") + rest);
             CString(body) && ReadElements(body, []) == Ok(vs, rest)
    ensures var t := ToStr(JArray(vs), indent) + rest;
            CString(t) && t[0] == '[' && ReadVar(t) == Ok(JArray(vs), rest)
  {
    var body := ElementsText(vs, indent + 1) + ((Indent(indent) + "]") + rest);
    SkipNewline(body);
    SameLoop("\n" + body, body);
    OpenArray("\n" + body);
    ArrayPieces(vs, indent, rest);
  }

  lemma Closing(indent: nat, c: char, rest: string)
    requires CString(rest) && c != NUL && !IsSeparator(c)
    ensures var tail := (Indent(indent) + [c]) + rest;
            CString(tail) && Skip(tail) == [c] + rest
  {
    PrependC(c, rest);
    SkipIndent(indent, [c] + rest);
    ConcatAssoc(Indent(indent), [c], rest);
  }

  /** One round of the array's loop. */
  lemma OneElement(s: string, done: seq<Json>, v: Json, after: string, more: string)
    requires CString(s) && CString(after) && CString(more)
    requires Skip(s)[0] != NUL && Skip(s)[0] != ']'
    requires ReadVar(Skip(s)) == Ok(v, after)
    requires SkipComma(after).Ok? && Skip(SkipComma(after).rest) == Skip(more)
    ensures ReadElements(s, done) == ReadElements(more, done + [v])
  {
    SameLoop(SkipComma(after).rest, more);
  }

  /** A printed line of an array: one round of the loop, if the value on it reads back. */
  lemma ElementLine(v: Json, indent: nat, last: bool, more: string, done: seq<Json>)
    requires CString(more) && Skip(more)[0] != NUL && (last ==> Skip(more)[0] != ',')
    requires CString(LineEnd(last) + more) && CString(ToStr(v, 0) + (LineEnd(last) + more))
    requires Starts((ToStr(v, 0) + (LineEnd(last) + more))[0])
    requires ReadVar(ToStr(v, 0) + (LineEnd(last) + more)) == Ok(v, LineEnd(last) + more)
    ensures var t := Indent(indent) + (ToStr(v, 0) + (LineEnd(last) + more));
            && CString(t) && Starts(Skip(t)[0])
            && ReadElements(t, done) == ReadElements(more, done + [v])
  {
    var after := LineEnd(last) + more;
    var first := ToStr(v, 0) + after;
    SkipLineEnd(last, more);
    SkipIndent(indent, first);
    assert Skip(first) == first;
    OneElement(Indent(indent) + first, done, v, after, more);
  }

  lemma NoElements(indent: nat, done: seq<Json>, tail: string, rest: string)
    requires CString(tail) && CString(rest) && Skip(tail) == "]" + rest
    ensures ElementsText([], indent) + tail == tail
    ensures Skip(tail)[0] == ']' && ReadElements(tail, done) == Ok(done, rest)
  {
    assert ("]" + rest)[1..] == rest;
  }

  lemma NoEntries(indent: nat, done: seq<Entry>, tail: string, rest: string)
    requires CString(tail) && CString(rest) && Skip(tail) == "}" + rest
    ensures EntriesText([], indent) + tail == tail
    ensures Skip(tail)[0] == '}' && ReadEntries(tail, done) == Ok(done, rest)
  {
    assert ("}" + rest)[1..] == rest;
  }

  lemma {:induction false} ElementsBack(vs: seq<Json>, indent: nat, done: seq<Json>, tail: string, rest: string)
    requires forall i | 0 <= i < |vs| :: WellFormed(vs[i])
    requires CString(tail) && CString(rest) && Skip(tail) == "]" + rest
    ensures var t := ElementsText(vs, indent) + tail;
            && CString(t) && Skip(t)[0] != NUL && Skip(t)[0] != ','
            && ReadElements(t, done) == Ok(done + vs, rest)
    decreases vs, 1
  {
    hide ReadVar, ReadElements, SkipComma, Skip, LineEnd, ToStr, ElementsText, WellFormed, Indent;
    if vs == [] {
      NoElements(indent, done, tail, rest);
      assert done + vs == done;
    } else {
      var more := ElementsText(vs[1..], indent) + tail;
      assert && CString(more) && Skip(more)[0] != NUL && Skip(more)[0] != ','
             && ReadElements(more, done + [vs[0]]) == Ok((done + [vs[0]]) + vs[1..], rest) by {
        ElementsBack(vs[1..], indent, done + [vs[0]], tail, rest);
      }
      var line := ToStr(vs[0], 0) + (LineEnd(|vs| == 1) + more);
      assert && CString(LineEnd(|vs| == 1) + more) && CString(line) && Starts(line[0])
             && ReadVar(line) == Ok(vs[0], LineEnd(|vs| == 1) + more) by {
        SkipLineEnd(|vs| == 1, more);
        RoundTrip(vs[0], 0, LineEnd(|vs| == 1) + more);
      }
      ElementLine(vs[0], indent, |vs| == 1, more, done);
      ElementPieces(vs, indent, tail);
      ConcatAssoc(done, [vs[0]], vs[1..]);
      assert [vs[0]] + vs[1..] == vs;
    }
  }

  lemma ElementPieces(vs: seq<Json>, indent: nat, tail: string)
    requires vs != []
    ensures ElementsText(vs, indent) + tail ==
            Indent(indent) + (ToStr(vs[0], 0) + (LineEnd(|vs| == 1) + (ElementsText(vs[1..], indent) + tail)))
  {
    var a, b, c, d := Indent(indent), ToStr(vs[0], 0), LineEnd(|vs| == 1), ElementsText(vs[1..], indent);
    ConcatAssoc(a, b + (c + d), tail);
    ConcatAssoc(b, c + d, tail);
    ConcatAssoc(c, d, tail);
  }

  lemma DictPieces(es: seq<Entry>, indent: nat, rest: string)
    ensures ToStr(JDict(es), indent) + rest
         == ['{'] + ("\n" + (EntriesText(es, indent + 1) + ((Indent(indent) + "}") + rest)))
  {
    var body, close := EntriesText(es, indent + 1), Indent(indent) + "}";
    ConcatAssoc("{\n", body + close, rest);
    ConcatAssoc(body, close, rest);
    assert "{\n" + (body + (close + rest)) == ['{'] + ("\n" + (body + (close + rest)));
  }

  predicate GoodEntries(es: seq<Entry>) {
    forall i | 0 <= i < |es| :: Plain(es[i].key) && WellFormed(es[i].val)
  }

  predicate Sorted(es: seq<Entry>) {
    forall i, j | 0 <= i < j < |es| :: KeyLess(es[i].key, es[j].key)
  }

  /** A printed dict reads back if what is between its braces does. */
  lemma DictFrame(es: seq<Entry>, indent: nat, rest: string)
    requires var body := EntriesText(es, indent + 1) + ((Indent(indent) + "}") + rest);
             CString(body) && ReadEntries(body, []) == Ok(es, rest)
    ensures var t := ToStr(JDict(es), indent) + rest;
            CString(t) && t[0] == '{' && ReadVar(t) == Ok(JDict(es), rest)
  {
    var body := EntriesText(es, indent + 1) + ((Indent(indent) + "}") + rest);
    SkipNewline(body);
    SameLoop("\n" + body, body);
    OpenDict("\n" + body);
    DictPieces(es, indent, rest);
  }

  /** One round of the dict's loop. */
  lemma OneEntry(s: string, done: seq<Entry>, key: string, value: string, v: Json, after: string, more: string)
    requires CString(s) && CString(value) && CString(after) && CString(more)
    requires Skip(s)[0] != NUL && Skip(s)[0] != '}'
    requires ReadKey(Skip(s)) == Ok(key, value)
    requires ReadVar(value) == Ok(v, after)
    requires SkipComma(after).Ok? && Skip(SkipComma(after).rest) == Skip(more)
    ensures ReadEntries(s, done) == ReadEntries(more, Insert(done, Entry(key, v)))
  {
    SameLoop(SkipComma(after).rest, more);
  }

  lemma SortedInsert(done: seq<Entry>, es: seq<Entry>)
    requires es != [] && Sorted(done + es)
    ensures Insert(done, es[0]) == done + [es[0]] && (done + [es[0]]) + es[1..] == done + es
  {
    var all := done + es;
    assert all[|done|] == es[0];
    forall i | 0 <= i < |done|
      ensures KeyLess(done[i].key, es[0].key)
    {
      assert all[i] == done[i];
    }
    InsertLast(done, es[0]);
  }

  /** A printed line of a dict: one round of the loop, if the value on it reads back. */
  lemma EntryLine(e: Entry, indent: nat, last: bool, more: string, done: seq<Entry>)
    requires Plain(e.key)
    requires CString(more) && Skip(more)[0] != NUL && (last ==> Skip(more)[0] != ',')
    requires CString(LineEnd(last) + more) && CString(ToStr(e.val, indent + 1) + (LineEnd(last) + more))
    requires Starts((ToStr(e.val, indent + 1) + (LineEnd(last) + more))[0])
    requires ReadVar(ToStr(e.val, indent + 1) + (LineEnd(last) + more)) == Ok(e.val, LineEnd(last) + more)
    ensures var t := Indent(indent)
                     + (("\"" + e.key + "\"") + (": " + (ToStr(e.val, indent + 1) + (LineEnd(last) + more))));
            && CString(t) && Skip(t)[0] == '"'
            && ReadEntries(t, done) == ReadEntries(more, Insert(done, e))
  {
    var after := LineEnd(last) + more;
    var value := ToStr(e.val, indent + 1) + after;
    var first := ("\"" + e.key + "\"") + (": " + value);
    SkipLineEnd(last, more);
    KeyBack(e.key, value);
    SkipIndent(indent, first);
    assert Skip(first) == first;
    OneEntry(Indent(indent) + first, done, e.key, value, e.val, after, more);
    assert Entry(e.key, e.val) == e;
  }

  lemma {:induction false} EntriesBack(es: seq<Entry>, indent: nat, done: seq<Entry>, all: seq<Entry>,
                                       tail: string, rest: string)
    requires GoodEntries(es) && Sorted(all) && all == done + es
    requires CString(tail) && CString(rest) && Skip(tail) == "}" + rest
    ensures var t := EntriesText(es, indent) + tail;
            && CString(t) && Skip(t)[0] != NUL && Skip(t)[0] != ','
            && ReadEntries(t, done) == Ok(all, rest)
    decreases es, 1
  {
    hide ReadVar, ReadKey, ReadEntries, SkipComma, Skip, LineEnd, Insert, ToStr, EntriesText, KeyLess, WellFormed,
      Indent;
    if es == [] {
      NoEntries(indent, done, tail, rest);
      assert done + es == done;
    } else {
      var more := EntriesText(es[1..], indent) + tail;
      assert && CString(more) && Skip(more)[0] != NUL && Skip(more)[0] != ','
             && ReadEntries(more, Insert(done, es[0])) == Ok(all, rest) by {
        SortedInsert(done, es);
        EntriesBack(es[1..], indent, done + [es[0]], all, tail, rest);
      }
      var line := ToStr(es[0].val, indent + 1) + (LineEnd(|es| == 1) + more);
      assert && CString(LineEnd(|es| == 1) + more) && CString(line) && Starts(line[0])
             && ReadVar(line) == Ok(es[0].val, LineEnd(|es| == 1) + more) by {
        SkipLineEnd(|es| == 1, more);
        RoundTrip(es[0].val, indent + 1, LineEnd(|es| == 1) + more);
      }
      EntryLine(es[0], indent, |es| == 1, more, done);
      EntryPieces(es, indent, tail);
    }
  }

  lemma KeyBack(key: string, value: string)
    requires Plain(key) && CString(value) && Starts(value[0])
    ensures var t := ("\"" + key + "\"") + (": " + value);
            CString(t) && t[0] == '"' && ReadKey(t) == Ok(key, value)
  {
    PrependC(' ', value);
    PrependC(':', " " + value);
    assert ": " + value == [':'] + (" " + value);
    ReadStringBack(key, ": " + value);
    assert Skip(" " + value) == Skip(value) == value;
  }

  lemma EntryPieces(es: seq<Entry>, indent: nat, tail: string)
    requires es != []
    ensures EntriesText(es, indent) + tail ==
            Indent(indent) + (("\"" + es[0].key + "\"") + (": " + (ToStr(es[0].val, indent + 1)
              + (LineEnd(|es| == 1) + (EntriesText(es[1..], indent) + tail)))))
  {
    var a, k, b := Indent(indent), "\"" + es[0].key + "\"", ToStr(es[0].val, indent + 1);
    var c, d := LineEnd(|es| == 1), EntriesText(es[1..], indent);
    ConcatAssoc(a, k + (": " + (b + (c + d))), tail);
    ConcatAssoc(k, ": " + (b + (c + d)), tail);
    ConcatAssoc(": ", b + (c + d), tail);
    ConcatAssoc(b, c + d, tail);
    ConcatAssoc(c, d, tail);
  }

  /** Different values print differently. */
  lemma PrintingIsInjective(v: Json, w: Json, indent: nat)
    requires WellFormed(v) && WellFormed(w) && ToStr(v, indent) == ToStr(w, indent)
    ensures v == w
  {
    assert CString([NUL]);
    RoundTrip(v, indent, [NUL]);
    RoundTrip(w, indent, [NUL]);
  }
}
