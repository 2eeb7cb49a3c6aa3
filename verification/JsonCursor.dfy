/** The reader as it runs: a cursor that every function moves on by reference. */
module JsonCursor {
  import opened Words
  import opened Numerals
  import opened Json

  class Cursor {
    const text: string
    var at: nat

    /** The cursor is on a character of the string, at most on its NUL. */
    ghost predicate Valid()
      reads this
    {
      at < |text| && CString(text[at..])
    }

    ghost function Rest(): string
      requires Valid()
      reads this
    {
      text[at..]
    }

    constructor (s: string)
      requires CString(s)
      ensures Valid() && Rest() == s
    {
      text, at := s, 0;
    }

    /** c++, allowed on anything but the NUL: the reader never steps behind the end. */
    method Advance()
      requires Valid() && Rest()[0] != NUL
      modifies this
      ensures Valid() && at == old(at) + 1 && Rest() == old(Rest())[1..]
    {
      at := at + 1;
    }

    method SkipSeparators() returns (ok: bool)
      requires Valid()
      modifies this
      ensures Valid() && old(at) <= at && Rest() == Skip(old(Rest()))
      ensures ok == (Rest()[0] != NUL)
    {
      while text[at] == ' ' || text[at] == '\t' || text[at] == '\n' || text[at] == '\r'
        invariant Valid() && old(at) <= at && Skip(Rest()) == Skip(old(Rest()))
        decreases |text| - at
      {
        Advance();
      }
      ok := text[at] != NUL;
    }

    /** The digits ahead, and the number they spell. */
    method ReadDigits() returns (n: nat)
      requires Valid()
      modifies this
      ensures Valid() && n == Number(DigitRun(old(Rest())))
      ensures at == old(at) + |DigitRun(old(Rest()))| && Rest() == old(Rest())[|DigitRun(old(Rest()))|..]
    {
      ghost var body, run := Rest(), "";
      n := 0;
      while '0' <= text[at] <= '9'
        invariant Valid() && n == Number(run) && at == old(at) + |run|
        invariant run + DigitRun(Rest()) == DigitRun(body)
        decreases |text| - at
      {
        n := n * 10 + DigitValue(text[at]);
        NumberSnoc(run, text[at]);
        ConcatAssoc(run, [text[at]], DigitRun(Rest()[1..]));
        run := run + [text[at]];
        Advance();
      }
      assert run + "" == run;
    }

    method ReadNumber() returns (i: int)
      requires Valid() && (IsDigit(Rest()[0]) || Rest()[0] == '-')
      modifies this
      ensures Valid() && old(at) < at
      ensures Ok(i, Rest()) == ReadInt(old(Rest()))
    {
      hide Number, DigitRun;
      RunEnds(if Rest()[0] == '-' then Rest()[1..] else Rest());
      if text[at] == '-' {
        Advance();
        i := ReadDigits();
        i := -i;
      } else {
        i := ReadDigits();
      }
    }

    method ReadQuoted() returns (r: Option<string>)
      requires Valid()
      modifies this
      ensures Valid()
      ensures var d := ReadString(old(Rest()));
              if d.Bad? then r == None else r == Some(d.value) && Rest() == d.rest && old(at) < at
    {
      if text[at] != '"' {
        return None;
      }
      Advance();
      ghost var body := Rest();
      var str := "";
      assert ReadChars(body).Ok? ==> "" + ReadChars(body).value == ReadChars(body).value;
      while text[at] != '"'
        invariant Valid() && old(at) < at
        invariant ReadChars(body) == (var d := ReadChars(Rest()); if d.Bad? then Bad else Ok(str + d.value, d.rest))
        decreases |text| - at
      {
        if text[at] == NUL {
          return None;
        }
        var d := text[at];
        Advance();
        ghost var more := ReadChars(Rest());
        if more.Ok? {
          ConcatAssoc(str, [d], more.value);
        }
        str := str + [d];
      }
      assert str + "" == str;
      Advance();
      r := Some(str);
    }

    method ReadValue() returns (r: Option<Json>)
      requires Valid()
      modifies this
      ensures Valid()
      ensures var d := ReadVar(old(Rest()));
              if d.Bad? then r == None else r == Some(d.value) && Rest() == d.rest && old(at) < at
      decreases |text| - at, 2
    {
      var ok := SkipSeparators();
      if !ok {
        return None;
      }
      if text[at] == '{' {
        var d := ReadDict();
        return if d.None? then None else Some(JDict(d.value));
      } else if text[at] == '[' {
        var a := ReadArray();
        return if a.None? then None else Some(JArray(a.value));
      } else if text[at] == '"' {
        var s := ReadQuoted();
        return if s.None? then None else Some(JString(s.value));
      } else if '0' <= text[at] <= '9' || text[at] == '-' {
        var i := ReadNumber();
        return Some(JInt(i));
      } else {
        return None;
      }
    }

    method ReadDict() returns (r: Option<seq<Entry>>)
      requires Valid()
      modifies this
      ensures Valid()
      ensures var c := Skip(old(Rest()));
              if c[0] != '{' || ReadEntries(c[1..], []).Bad? then r == None
              else r == Some(ReadEntries(c[1..], []).value) && Rest() == ReadEntries(c[1..], []).rest && old(at) < at
      decreases |text| - at, 1
    {
      var ok := SkipSeparators();
      if !ok || text[at] != '{' {
        return None;
      }
      Advance();
      hide ReadVar, ReadKey, SkipComma, Skip, Insert, CString;
      ghost var body := Rest();
      var result := [];
      while true
        invariant Valid() && old(at) < at
        invariant ReadEntries(body, []) == ReadEntries(Rest(), result)
        decreases |text| - at
      {
        ok := SkipSeparators();
        if !ok {
          return None;
        }
        if text[at] == '}' {
          break;
        }
        var k := ReadColonKey();
        if k.None? {
          return None;
        }
        var v := ReadValue();
        if v.None? {
          return None;
        }
        ok := SkipCommaIfAny();
        if !ok {
          return None;
        }
        result := Insert(result, Entry(k.value, v.value));
      }
      Advance();
      r := Some(result);
    }

    method ReadColonKey() returns (k: Option<string>)
      requires Valid()
      modifies this
      ensures Valid()
      ensures var d := ReadKey(old(Rest()));
              if d.Bad? then k == None else k == Some(d.value) && Rest() == d.rest && old(at) < at
    {
      k := ReadQuoted();
      if k.None? {
        return None;
      }
      var ok := SkipSeparators();
      if !ok || text[at] != ':' {
        return None;
      }
      Advance();
      ok := SkipSeparators();
    }

    method SkipCommaIfAny() returns (ok: bool)
      requires Valid()
      modifies this
      ensures Valid() && old(at) <= at
      ensures var d := SkipComma(old(Rest()));
              ok == d.Ok? && (ok ==> Rest() == d.rest)
    {
      ok := SkipSeparators();
      if ok && text[at] == ',' {
        Advance();
      }
    }

    method ReadArray() returns (r: Option<seq<Json>>)
      requires Valid()
      modifies this
      ensures Valid()
      ensures var c := Skip(old(Rest()));
              if c[0] != '[' || ReadElements(c[1..], []).Bad? then r == None
              else r == Some(ReadElements(c[1..], []).value) && Rest() == ReadElements(c[1..], []).rest && old(at) < at
      decreases |text| - at, 1
    {
      var ok := SkipSeparators();
      if !ok || text[at] != '[' {
        return None;
      }
      Advance();
      ghost var body := Rest();
      var result := [];
      while true
        invariant Valid() && old(at) < at
        invariant ReadElements(body, []) == ReadElements(Rest(), result)
        decreases |text| - at
      {
        ok := SkipSeparators();
        if !ok {
          return None;
        }
        if text[at] == ']' {
          break;
        }
        var v := ReadValue();
        if v.None? {
          return None;
        }
        ok := SkipCommaIfAny();
        if !ok {
          return None;
        }
        result := result + [v.value];
      }
      Advance();
      r := Some(result);
    }
  }

  // ---- the printer ----

  method MakeIndent(indent: nat) returns (s: string)
    ensures s == Indent(indent)
  {
    s := "";
    var i := 0;
    while i < indent
      invariant i <= indent && s + Indent(indent - i) == Indent(indent)
    {
      ConcatAssoc(s, "\t", Indent(indent - i - 1));
      s := s + "\t";
      i := i + 1;
    }
    assert s + "" == s;
  }

  /** to_str: strings are appended to in loops, recursing over the structure. */
  method Print(v: Json, indent: nat) returns (s: string)
    ensures s == ToStr(v, indent)
    decreases v, 0
  {
    match v
    case JInt(i) => s := IntText(i);
    case JString(str) => s := "\"" + str + "\"";
    case JDict(es) =>
      var body := PrintEntries(es, indent + 1);
      var tabs := MakeIndent(indent);
      s := "{\n" + (body + (tabs + "}"));
    case JArray(vs) =>
      var body := PrintElements(vs, indent + 1);
      var tabs := MakeIndent(indent);
      s := "[\n" + (body + (tabs + "]"));
  }

  method PrintEntries(es: seq<Entry>, indent: nat) returns (s: string)
    ensures s == EntriesText(es, indent)
    decreases es, 1
  {
    s := "";
    var i := 0;
    assert es[0..] == es;
    while i < |es|
      invariant i <= |es| && s + EntriesText(es[i..], indent) == EntriesText(es, indent)
    {
      var tabs := MakeIndent(indent);
      var value := Print(es[i].val, indent + 1);
      var line := tabs + ("\"" + es[i].key + "\"" + (": " + (value + LineEnd(i + 1 == |es|))));
      assert es[i..][1..] == es[i + 1..];
      EntryLineSplits(es[i..], indent, EntriesText(es[i + 1..], indent));
      ConcatAssoc(s, line, EntriesText(es[i + 1..], indent));
      s := s + line;
      i := i + 1;
    }
    assert s + "" == s;
  }

  lemma EntryLineSplits(es: seq<Entry>, indent: nat, more: string)
    requires es != [] && more == EntriesText(es[1..], indent)
    ensures EntriesText(es, indent) ==
            (Indent(indent)
             + ("\"" + es[0].key + "\"" + (": " + (ToStr(es[0].val, indent + 1) + LineEnd(|es| == 1)))))
            + more
  {
    var a, k, b, c := Indent(indent), "\"" + es[0].key + "\"", ToStr(es[0].val, indent + 1), LineEnd(|es| == 1);
    ConcatAssoc(a, k + (": " + (b + c)), more);
    ConcatAssoc(k, ": " + (b + c), more);
    ConcatAssoc(": ", b + c, more);
    ConcatAssoc(b, c, more);
  }

  method PrintElements(vs: seq<Json>, indent: nat) returns (s: string)
    ensures s == ElementsText(vs, indent)
    decreases vs, 1
  {
    s := "";
    var i := 0;
    assert vs[0..] == vs;
    while i < |vs|
      invariant i <= |vs| && s + ElementsText(vs[i..], indent) == ElementsText(vs, indent)
    {
      var tabs := MakeIndent(indent);
      var value := Print(vs[i], 0);
      var line := tabs + (value + LineEnd(i + 1 == |vs|));
      assert vs[i..][1..] == vs[i + 1..];
      ElementLineSplits(vs[i..], indent, ElementsText(vs[i + 1..], indent));
      ConcatAssoc(s, line, ElementsText(vs[i + 1..], indent));
      s := s + line;
      i := i + 1;
    }
    assert s + "" == s;
  }

  lemma ElementLineSplits(vs: seq<Json>, indent: nat, more: string)
    requires vs != [] && more == ElementsText(vs[1..], indent)
    ensures ElementsText(vs, indent) == (Indent(indent) + (ToStr(vs[0], 0) + LineEnd(|vs| == 1))) + more
  {
    var a, b, c := Indent(indent), ToStr(vs[0], 0), LineEnd(|vs| == 1);
    ConcatAssoc(a, b + c, more);
    ConcatAssoc(b, c, more);
  }

  lemma NumberSnoc(s: string, c: char)
    ensures Number(s + [c]) == Number(s) * 10 + DigitValue(c)
  {
    assert (s + [c])[..|s|] == s;
  }

  /** Print a value and read the text back with a cursor: the value is the one printed. */
  method PrintThenRead(v: Json, indent: nat) returns (r: Option<Json>)
    requires WellFormed(v)
    ensures r == Some(v)
  {
    var rest := [NUL];
    assert CString(rest);
    RoundTrip(v, indent, rest);
    var text := Print(v, indent);
    var c := new Cursor(text + rest);
    r := c.ReadValue();
  }
}
