/**
  Every text the JSON reader accepts, and what it denotes: values with any separators between their
  tokens, with or without a comma between items, keys in any order and possibly repeated.
 */
module JsonLayout {
  import opened Words
  import opened Numerals
  import opened Json

  datatype Tree =
    | Int(negative: bool, digits: string)
    | Str(s: string)
    | Arr(open: string, items: Items)
    | Obj(open: string, members: Members)

  /** A value, the separators before and after its comma, and the items behind it. */
  datatype Items =
    | NoItems
    | Item(value: Tree, before: string, comma: bool, after: string, more: Items)

  datatype Members =
    | NoMembers
    | Member(key: string, beforeColon: string, afterColon: string, value: Tree, before: string, comma: bool,
             after: string, more: Members)

  // ---- the text ----

  function Comma(comma: bool): string {
    if comma then "," else ""
  }

  /** The text of a value, with the rest behind it. */
  function Write(t: Tree, rest: string): string
    decreases t
  {
    match t
    case Int(negative, digits) => (if negative then "-" else "") + (digits + rest)
    case Str(s) => "\"" + s + "\"" + rest
    case Arr(open, items) => "[" + (open + WriteItems(items, "]" + rest))
    case Obj(open, members) => "{" + (open + WriteMembers(members, "}" + rest))
  }

  function WriteItems(items: Items, rest: string): string
    decreases items
  {
    match items
    case NoItems => rest
    case Item(v, before, comma, after, more) => Write(v, before + (Comma(comma) + (after + WriteItems(more, rest))))
  }

  function WriteMembers(members: Members, rest: string): string
    decreases members
  {
    match members
    case NoMembers => rest
    case Member(key, a, b, v, before, comma, after, more) =>
      "\"" + key + "\"" +
      (a + (":" + (b + Write(v, before + (Comma(comma) + (after + WriteMembers(more, rest)))))))
  }

  /** The text of a value does not depend on what is behind it. */
  lemma {:induction false} WriteAppends(t: Tree, rest: string, more: string)
    ensures Write(t, rest + more) == Write(t, rest) + more
    decreases t
  {
    match t
    case Int(negative, digits) => ConcatAssoc(digits, rest, more);
    case Str(s) => ConcatAssoc("\"" + s + "\"", rest, more);
    case Arr(open, items) =>
      ItemsAppend(items, "]" + rest, more);
      ConcatAssoc("]", rest, more);
      ConcatAssoc(open, WriteItems(items, "]" + rest), more);
    case Obj(open, members) =>
      MembersAppend(members, "}" + rest, more);
      ConcatAssoc("}", rest, more);
      ConcatAssoc(open, WriteMembers(members, "}" + rest), more);
  }

  lemma {:induction false} ItemsAppend(items: Items, rest: string, more: string)
    ensures WriteItems(items, rest + more) == WriteItems(items, rest) + more
    decreases items
  {
    if items.Item? {
      var tail := WriteItems(items.more, rest);
      ItemsAppend(items.more, rest, more);
      ConcatAssoc(items.after, tail, more);
      ConcatAssoc(Comma(items.comma), items.after + tail, more);
      ConcatAssoc(items.before, Comma(items.comma) + (items.after + tail), more);
      WriteAppends(items.value, items.before + (Comma(items.comma) + (items.after + tail)), more);
    }
  }

  lemma {:induction false} MembersAppend(members: Members, rest: string, more: string)
    ensures WriteMembers(members, rest + more) == WriteMembers(members, rest) + more
    decreases members
  {
    if members.Member? {
      var tail := WriteMembers(members.more, rest);
      var next := members.before + (Comma(members.comma) + (members.after + tail));
      MembersAppend(members.more, rest, more);
      ConcatAssoc(members.after, tail, more);
      ConcatAssoc(Comma(members.comma), members.after + tail, more);
      ConcatAssoc(members.before, Comma(members.comma) + (members.after + tail), more);
      WriteAppends(members.value, next, more);
      var value := Write(members.value, next);
      ConcatAssoc(members.afterColon, value, more);
      ConcatAssoc(":", members.afterColon + value, more);
      ConcatAssoc(members.beforeColon, ":" + (members.afterColon + value), more);
      ConcatAssoc("\"" + members.key + "\"", members.beforeColon + (":" + (members.afterColon + value)), more);
    }
  }

  predicate Separators(s: string) {
    forall i | 0 <= i < |s| :: s[i] == ' ' || s[i] == '\t' || s[i] == '\n' || s[i] == '\r'
  }

  /** Numbers end where their digits do; strings and keys have no quote and no NUL; the rest is separators. */
  predicate Laid(t: Tree, rest: string)
    decreases t
  {
    match t
    case Int(negative, digits) =>
      AllDigits(digits) && (negative || digits != "") && (rest == "" || !('0' <= rest[0] <= '9'))
    case Str(s) => Plain(s)
    case Arr(open, items) => Separators(open) && LaidItems(items, "]" + rest)
    case Obj(open, members) => Separators(open) && LaidMembers(members, "}" + rest)
  }

  predicate LaidItems(items: Items, rest: string)
    decreases items
  {
    match items
    case NoItems => true
    case Item(v, before, comma, after, more) =>
      && Separators(before) && Separators(after)
      && Laid(v, before + (Comma(comma) + (after + WriteItems(more, rest))))
      && LaidItems(more, rest)
  }

  predicate LaidMembers(members: Members, rest: string)
    decreases members
  {
    match members
    case NoMembers => true
    case Member(key, a, b, v, before, comma, after, more) =>
      && Plain(key) && Separators(a) && Separators(b) && Separators(before) && Separators(after)
      && Laid(v, before + (Comma(comma) + (after + WriteMembers(more, rest))))
      && LaidMembers(more, rest)
  }

  // ---- the value ----

  /** Arrays item by item; a dict has its keys in order, each with the first value given for it. */
  ghost predicate Denotes(t: Tree, v: Json)
    decreases t
  {
    match t
    case Int(negative, digits) => v == JInt(if negative then 0 - Number(digits) else Number(digits))
    case Str(s) => v == JString(s)
    case Arr(_, items) => v.JArray? && DenotesAll(items, v.elems)
    case Obj(_, members) =>
      && v.JDict? && Sorted(v.entries)
      && (forall e | e in v.entries :: FirstUnder(members, e.key, e.val))
      && (forall k :: Listed(members, k) ==> exists e :: e in v.entries && e.key == k)
  }

  ghost predicate DenotesAll(items: Items, vs: seq<Json>)
    decreases items
  {
    match items
    case NoItems => vs == []
    case Item(t, _, _, _, more) => vs != [] && Denotes(t, vs[0]) && DenotesAll(more, vs[1..])
  }

  predicate Listed(members: Members, key: string) {
    members.Member? && (members.key == key || Listed(members.more, key))
  }

  ghost predicate FirstUnder(members: Members, key: string, v: Json)
    decreases members
  {
    members.Member? && if members.key == key then Denotes(members.value, v) else FirstUnder(members.more, key, v)
  }

  // ---- the order of keys ----

  /** Dictionary order: a proper beginning, or smaller at the first place where they differ. */
  lemma {:induction false} KeyLessExactly(a: string, b: string)
    ensures KeyLess(a, b) <==>
            exists n: nat :: n <= |a| && n < |b| && a[..n] == b[..n] && (n == |a| || a[n] < b[n])
    decreases |a|
  {
    if b != "" && a != "" && a[0] == b[0] {
      KeyLessExactly(a[1..], b[1..]);
      if KeyLess(a, b) {
        var n: nat :| n < |a| && n < |b| - 1 && a[1..][..n] == b[1..][..n] &&
          (n == |a| - 1 || a[1..][n] < b[1..][n]);
        assert a[..n + 1] == [a[0]] + a[1..][..n] && b[..n + 1] == [b[0]] + b[1..][..n];
        assert n + 1 == |a| || a[n + 1] < b[n + 1];
      }
      if n: nat :| n <= |a| && n < |b| && a[..n] == b[..n] && (n == |a| || a[n] < b[n]) {
        assert n > 0;
        assert a[1..][..n - 1] == a[..n][1..] == b[..n][1..] == b[1..][..n - 1];
        assert n - 1 == |a[1..]| || a[1..][n - 1] < b[1..][n - 1];
      }
    } else if b != "" {
      if a == "" || a[0] < b[0] {
        assert a[..0] == b[..0];
      }
    }
  }

  lemma {:induction false} KeyTrichotomy(a: string, b: string)
    ensures KeyLess(a, b) || a == b || KeyLess(b, a)
    ensures !(KeyLess(a, b) && KeyLess(b, a)) && !KeyLess(a, a)
    decreases |a|
  {
    if a != "" {
      KeyTrichotomy(a[1..], if b == "" then a[1..] else b[1..]);
      assert b != "" && a[0] == b[0] && a[1..] == b[1..] ==> a == b;
    }
  }

  lemma {:induction false} KeyTransitive(a: string, b: string, c: string)
    requires KeyLess(a, b) && KeyLess(b, c)
    ensures KeyLess(a, c)
    decreases |a|
  {
    if a != "" && a[0] == b[0] == c[0] {
      KeyTransitive(a[1..], b[1..], c[1..]);
    }
  }

  ghost predicate HasKey(es: seq<Entry>, key: string) {
    exists e :: e in es && e.key == key
  }

  lemma SortedTail(es: seq<Entry>)
    requires es != [] && Sorted(es)
    ensures Sorted(es[1..]) && forall e | e in es[1..] :: KeyLess(es[0].key, e.key)
  {
  }

  lemma SortedCons(e: Entry, es: seq<Entry>)
    requires Sorted(es) && forall x | x in es :: KeyLess(e.key, x.key)
    ensures Sorted([e] + es)
  {
  }

  /** A key that is not there goes in, at its place; one that is there stays as it is. */
  lemma {:induction false} InsertFacts(es: seq<Entry>, e: Entry)
    requires Sorted(es)
    ensures Sorted(Insert(es, e))
    ensures forall x :: x in Insert(es, e) <==> x in es || (x == e && !HasKey(es, e.key))
    decreases |es|
  {
    if es != [] {
      var h, tail := es[0], es[1..];
      SortedTail(es);
      KeyTrichotomy(h.key, e.key);
      assert forall x :: x in es <==> x == h || x in tail;
      if KeyLess(h.key, e.key) {
        InsertFacts(tail, e);
        SortedCons(h, Insert(tail, e));
        assert HasKey(es, e.key) <==> HasKey(tail, e.key);
      } else if h.key == e.key {
        assert HasKey(es, e.key);
      } else {
        forall x | x in es
          ensures KeyLess(e.key, x.key)
        {
          if x != h {
            KeyTransitive(e.key, h.key, x.key);
          }
        }
        SortedCons(e, es);
        forall x | x in es
          ensures x.key != e.key
        {
          KeyTrichotomy(e.key, x.key);
        }
      }
    }
  }

  // ---- every such text is read, to what it denotes ----

  lemma {:induction false} SkipSeparators(a: string, s: string)
    requires Separators(a) && CString(s)
    ensures CString(a + s) && Skip(a + s) == Skip(s)
    decreases |a|
  {
    if a == "" {
      assert a + s == s;
    } else {
      SkipSeparators(a[1..], s);
      PrependC(a[0], a[1..] + s);
      assert a + s == [a[0]] + (a[1..] + s);
    }
  }

  /** Behind a value: separators, at most one comma, separators, and then something else. */
  lemma AfterValue(before: string, comma: bool, after: string, tail: string)
    requires Separators(before) && Separators(after) && CString(tail)
    requires tail[0] != NUL && tail[0] != ',' && !IsSeparator(tail[0])
    ensures var s := before + (Comma(comma) + (after + tail));
            CString(s) && SkipComma(s).Ok? && Skip(SkipComma(s).rest) == Skip(tail)
  {
    SkipSeparators(after, tail);
    if comma {
      PrependC(',', after + tail);
    } else {
      assert Comma(comma) + (after + tail) == after + tail;
    }
    SkipSeparators(before, Comma(comma) + (after + tail));
  }

  lemma ReadsInt(negative: bool, digits: string, rest: string)
    requires CString(rest) && Laid(Int(negative, digits), rest)
    ensures var s := Write(Int(negative, digits), rest);
            && CString(s) && Starts(s[0])
            && ReadVar(s) == Ok(JInt(if negative then 0 - Number(digits) else Number(digits)), rest)
  {
    var s, body := Write(Int(negative, digits), rest), digits + rest;
    DigitsC(digits, rest);
    DigitRunBack(digits, rest);
    assert body[|digits|..] == rest;
    if negative {
      PrependC('-', body);
    } else {
      assert s == body && body[0] == digits[0];
    }
    ReadsNumber(s);
  }

  lemma ReadsNumber(s: string)
    requires CString(s) && (IsDigit(s[0]) || s[0] == '-')
    ensures Starts(s[0]) && ReadVar(s) == Ok(JInt(ReadInt(s).value), ReadInt(s).rest)
  {
  }

  /** Reading a laid-out value consumes exactly its text and gives what it denotes. */
  lemma {:induction false} ReadsTree(t: Tree, rest: string)
    requires CString(rest) && Laid(t, rest)
    ensures var s := Write(t, rest);
            && CString(s) && Starts(s[0])
            && ReadVar(s).Ok? && ReadVar(s).rest == rest && Denotes(t, ReadVar(s).value)
    decreases t
  {
    match t
    case Int(negative, digits) => ReadsInt(negative, digits, rest);
    case Str(s) => ReadStringBack(s, rest);
    case Arr(open, items) =>
      var body := WriteItems(items, "]" + rest);
      ReadsItems(items, rest, []);
      SkipSeparators(open, body);
      SameLoop(open + body, body);
      OpenArray(open + body);
    case Obj(open, members) =>
      var body := WriteMembers(members, "}" + rest);
      ReadsMembers(members, rest, []);
      SkipSeparators(open, body);
      SameLoop(open + body, body);
      OpenDict(open + body);
  }

  lemma {:induction false} ReadsItems(items: Items, rest: string, done: seq<Json>)
    requires CString(rest) && LaidItems(items, "]" + rest)
    ensures var s := WriteItems(items, "]" + rest);
            && CString(s) && (s[0] == ']' || Starts(s[0]))
            && var r := ReadElements(s, done);
               r.Ok? && r.rest == rest && |done| <= |r.value| && r.value[..|done|] == done
               && DenotesAll(items, r.value[|done|..])
    decreases items
  {
    hide ReadVar, ReadElements, SkipComma, Skip, Laid, Write, Denotes, DenotesAll;
    match items
    case NoItems => EndOfItems(rest, done);
    case Item(t, before, comma, after, more) =>
      var tail := WriteItems(more, "]" + rest);
      var next := before + (Comma(comma) + (after + tail));
      ReadsItems(more, rest, done);
      StartsAre(tail[0]);
      AfterValue(before, comma, after, tail);
      ReadsTree(t, next);
      var s := Write(t, next);
      var v := ReadVar(s).value;
      ReadsItems(more, rest, done + [v]);
      StartsAre(s[0]);
      NoSkip(s);
      OneElement(s, done, v, next, tail);
      OneMoreItem(items, done, v, ReadElements(tail, done + [v]).value);
  }

  lemma StartsAre(c: char)
    ensures Starts(c) || c == ']' || c == '}' ==> c != NUL && c != ',' && !IsSeparator(c)
    ensures Starts(c) ==> c != ']' && c != '}'
  {
  }

  lemma NoSkip(s: string)
    requires CString(s) && !IsSeparator(s[0])
    ensures Skip(s) == s
  {
  }

  lemma EndOfItems(rest: string, done: seq<Json>)
    requires CString(rest)
    ensures var s := "]" + rest;
            CString(s) && ReadElements(s, done) == Ok(done, rest) && DenotesAll(NoItems, done[|done|..])
  {
    PrependC(']', rest);
  }

  lemma OneMoreItem(items: Items, done: seq<Json>, v: Json, all: seq<Json>)
    requires items.Item? && Denotes(items.value, v) && |done| < |all| && all[..|done| + 1] == done + [v]
    requires DenotesAll(items.more, all[|done| + 1..])
    ensures all[..|done|] == done && DenotesAll(items, all[|done|..])
  {
    assert all[|done|] == (done + [v])[|done|] == v;
    assert all[|done|..][1..] == all[|done| + 1..];
    assert all[..|done|] == all[..|done| + 1][..|done|] == done;
  }

  /** What members add to the entries already there. */
  ghost predicate Merged(members: Members, done: seq<Entry>, es: seq<Entry>) {
    && Sorted(es)
    && (forall e | e in es :: e in done || (!HasKey(done, e.key) && FirstUnder(members, e.key, e.val)))
    && (forall e | e in done :: e in es)
    && (forall k :: Listed(members, k) ==> HasKey(es, k))
  }

  lemma MergeOne(members: Members, done: seq<Entry>, v: Json, es: seq<Entry>)
    requires members.Member? && Sorted(done) && Denotes(members.value, v)
    requires Merged(members.more, Insert(done, Entry(members.key, v)), es)
    ensures Merged(members, done, es)
  {
    var e0 := Entry(members.key, v);
    var more := Insert(done, e0);
    InsertFacts(done, e0);
    assert HasKey(more, members.key) by {
      if HasKey(done, members.key) {
        var e :| e in done && e.key == members.key;
        assert e in more;
      } else {
        assert e0 in more;
      }
    }
    assert HasKey(es, members.key) by {
      var e :| e in more && e.key == members.key;
      assert e in es;
    }
    assert forall d | d in done :: d in more;
  }

  lemma {:induction false} ReadsMembers(members: Members, rest: string, done: seq<Entry>)
    requires CString(rest) && LaidMembers(members, "}" + rest) && Sorted(done)
    ensures var s := WriteMembers(members, "}" + rest);
            && CString(s) && (s[0] == '}' || s[0] == '"')
            && var r := ReadEntries(s, done);
               r.Ok? && r.rest == rest && Merged(members, done, r.value)
    decreases members
  {
    match members
    case NoMembers => PrependC('}', rest);
    case Member(key, a, b, t, before, comma, after, more) =>
      var tail := WriteMembers(more, "}" + rest);
      var next := before + (Comma(comma) + (after + tail));
      ReadsMembers(more, rest, done);
      AfterValue(before, comma, after, tail);
      ReadsTree(t, next);
      var v := ReadVar(Write(t, next)).value;
      ReadsKey(key, a, b, Write(t, next));
      InsertFacts(done, Entry(key, v));
      ReadsMembers(more, rest, Insert(done, Entry(key, v)));
      OneEntry(WriteMembers(members, "}" + rest), done, key, Write(t, next), v, next, tail);
      MergeOne(members, done, v, ReadEntries(tail, Insert(done, Entry(key, v))).value);
  }

  lemma ReadsKey(key: string, a: string, b: string, value: string)
    requires Plain(key) && Separators(a) && Separators(b) && CString(value) && Starts(value[0])
    ensures var s := "\"" + key + "\"" + (a + (":" + (b + value)));
            CString(s) && s[0] == '"' && ReadKey(s) == Ok(key, value)
  {
    SkipSeparators(b, value);
    PrependC(':', b + value);
    SkipSeparators(a, ":" + (b + value));
    ReadStringBack(key, a + (":" + (b + value)));
    assert (":" + (b + value))[1..] == b + value;
  }

  // ---- and no other text is read ----

  lemma {:induction false} SkippedAre(s: string) returns (a: string)
    requires CString(s)
    ensures Separators(a) && s == a + Skip(s)
    decreases |s|
  {
    if IsSeparator(s[0]) {
      a := SkippedAre(s[1..]);
      a := [s[0]] + a;
    } else {
      a := "";
    }
  }

  lemma {:induction false} CharsArePlain(s: string)
    requires CString(s) && ReadChars(s).Ok?
    ensures var r := ReadChars(s);
            Plain(r.value) && s == r.value + ("\"" + r.rest)
    decreases |s|
  {
    if s[0] != '"' {
      CharsArePlain(s[1..]);
    }
  }

  lemma CommaIs(s: string) returns (before: string, comma: bool)
    requires CString(s) && SkipComma(s).Ok?
    ensures Separators(before) && s == before + (Comma(comma) + SkipComma(s).rest)
  {
    before := SkippedAre(s);
    comma := Skip(s)[0] == ',';
    if !comma {
      assert Comma(comma) + Skip(s) == Skip(s);
    }
  }

  lemma StrIs(c: string) returns (t: Tree)
    requires CString(c) && ReadString(c).Ok?
    ensures t == Str(ReadString(c).value) && Laid(t, ReadString(c).rest) && c == Write(t, ReadString(c).rest)
  {
    CharsArePlain(c[1..]);
    t := Str(ReadString(c).value);
    var rest := ReadString(c).rest;
    ConcatAssoc("\"" + t.s, "\"", rest);
    ConcatAssoc("\"", t.s, "\"" + rest);
    assert c == "\"" + c[1..];
  }

  lemma IntIs(c: string) returns (t: Tree)
    requires CString(c) && (IsDigit(c[0]) || c[0] == '-')
    ensures Laid(t, ReadInt(c).rest) && c == Write(t, ReadInt(c).rest)
  {
    var negative := c[0] == '-';
    var body := if negative then c[1..] else c;
    RunSplits(body);
    IntRest(c);
    t := Int(negative, DigitRun(body));
    hide ReadInt, CString, DigitRun, AllDigits, Number;
    assert c == (if negative then "-" else "") + body;
  }

  lemma IntRest(c: string)
    requires CString(c) && (IsDigit(c[0]) || c[0] == '-')
    ensures var body := if c[0] == '-' then c[1..] else c;
            AllDigits(DigitRun(body)) && ReadInt(c).rest == body[|DigitRun(body)|..]
  {
  }

  lemma RunSplits(s: string)
    requires CString(s)
    ensures var run := DigitRun(s);
            |run| < |s| && s == run + s[|run|..] && !IsDigit(s[|run|]) && (IsDigit(s[0]) ==> run != "")
  {
    RunEnds(s);
    RunIsNotEmpty(s);
    CutBack(s, |DigitRun(s)|);
    hide *;
  }

  lemma RunIsNotEmpty(s: string)
    ensures s != [] && IsDigit(s[0]) ==> DigitRun(s) != ""
  {
  }

  lemma CutBack(s: string, n: nat)
    requires n <= |s|
    ensures s == s[..n] + s[n..]
  {
  }

  /** What the reader accepts is separators, then a laid-out value, then what it leaves. */
  lemma {:induction false} ReadIsLaid(s: string) returns (lead: string, t: Tree)
    requires CString(s) && ReadVar(s).Ok?
    ensures Separators(lead) && Laid(t, ReadVar(s).rest) && s == lead + Write(t, ReadVar(s).rest)
    decreases |s|, 2
  {
    lead := SkippedAre(s);
    SkipsOnce(s);
    t := ReadIsTree(Skip(s));
  }

  lemma SkipsOnce(s: string)
    requires CString(s)
    ensures Skip(Skip(s)) == Skip(s) && ReadVar(Skip(s)) == ReadVar(s)
  {
  }

  lemma {:induction false} ReadIsTree(c: string) returns (t: Tree)
    requires CString(c) && Skip(c) == c && ReadVar(c).Ok?
    ensures Laid(t, ReadVar(c).rest) && c == Write(t, ReadVar(c).rest)
    decreases |c|, 1
  {
    hide Skip, ReadInt, ReadString, ReadEntries, ReadElements;
    if c[0] == '{' {
      var open, members := ReadAreMembers(c[1..], []);
      t := Obj(open, members);
      assert c == "{" + c[1..];
    } else if c[0] == '[' {
      var open, items := ReadAreItems(c[1..], []);
      t := Arr(open, items);
      assert c == "[" + c[1..];
    } else if c[0] == '"' {
      t := StrIs(c);
    } else {
      t := IntIs(c);
    }
  }

  lemma {:induction false} ReadAreItems(s: string, done: seq<Json>) returns (open: string, items: Items)
    requires CString(s) && ReadElements(s, done).Ok?
    ensures var rest := "]" + ReadElements(s, done).rest;
            Separators(open) && LaidItems(items, rest) && s == open + WriteItems(items, rest)
    decreases |s|, 2
  {
    hide ReadVar, Skip, Laid, Write, SkipComma;
    open := SkippedAre(s);
    var c := Skip(s);
    if c[0] == ']' {
      items := NoItems;
    } else {
      var v := ReadVar(c);
      SkipsOnce(s);
      var t := ReadIsTree(c);
      var before, comma := CommaIs(v.rest);
      var after, more := ReadAreItems(SkipComma(v.rest).rest, done + [v.value]);
      items := Item(t, before, comma, after, more);
    }
  }

  lemma {:induction false} ReadAreMembers(s: string, done: seq<Entry>) returns (open: string, members: Members)
    requires CString(s) && ReadEntries(s, done).Ok?
    ensures var rest := "}" + ReadEntries(s, done).rest;
            Separators(open) && LaidMembers(members, rest) && s == open + WriteMembers(members, rest)
    decreases |s|, 2
  {
    open := SkippedAre(s);
    var c := Skip(s);
    if c[0] == '}' {
      members := NoMembers;
    } else {
      var k := ReadKey(c);
      var v := ReadVar(k.rest);
      var a, b, t := ReadIsMember(c);
      var before, comma := CommaIs(v.rest);
      var after, more := ReadAreMembers(SkipComma(v.rest).rest, Insert(done, Entry(k.value, v.value)));
      members := Member(k.value, a, b, t, before, comma, after, more);
    }
  }

  lemma {:induction false} ReadIsMember(c: string) returns (a: string, b: string, t: Tree)
    requires CString(c) && ReadKey(c).Ok? && ReadVar(ReadKey(c).rest).Ok?
    ensures var k := ReadKey(c); var rest := ReadVar(k.rest).rest;
            && Plain(k.value) && Separators(a) && Separators(b) && Laid(t, rest)
            && c == "\"" + k.value + "\"" + (a + (":" + (b + Write(t, rest))))
    decreases |c|, 0
  {
    hide ReadVar, Skip, Laid, Write, Plain;
    a, b := KeyIs(c);
    t := ReadIsTree(ReadKey(c).rest);
  }

  lemma KeyIs(c: string) returns (a: string, b: string)
    requires CString(c) && ReadKey(c).Ok?
    ensures var k := ReadKey(c);
            Skip(k.rest) == k.rest && Plain(k.value) && Separators(a) && Separators(b)
            && c == "\"" + k.value + "\"" + (a + (":" + (b + k.rest)))
  {
    var k := ReadString(c);
    var t := StrIs(c);
    hide Skip, ReadString;
    var d := Skip(k.rest);
    a := SkippedAre(k.rest);
    assert d == ":" + d[1..];
    b := SkippedAre(d[1..]);
    SkipsOnce(d[1..]);
  }

  /**
    The reader, on any C string: it accepts exactly those that begin, behind separators, with a
    laid-out value, and then it gives what that denotes and leaves what is behind it.
   */
  lemma ReadsExactly(s: string)
    requires CString(s)
    ensures ReadVar(s).Ok? <==> exists lead, t, rest ::
              Separators(lead) && CString(rest) && Laid(t, rest) && s == lead + Write(t, rest)
    ensures forall lead, t, rest | Separators(lead) && CString(rest) && Laid(t, rest) && s == lead + Write(t, rest) ::
              ReadVar(s).Ok? && ReadVar(s).rest == rest && Denotes(t, ReadVar(s).value)
  {
    hide Laid, Write, Denotes, ReadVar, Separators, CString;
    forall lead, t, rest | Separators(lead) && CString(rest) && Laid(t, rest) && s == lead + Write(t, rest)
      ensures ReadVar(s).Ok? && ReadVar(s).rest == rest && Denotes(t, ReadVar(s).value)
    {
      ReadsLaid(lead, t, rest);
    }
    if ReadVar(s).Ok? {
      var lead, t := ReadIsLaid(s);
    }
  }

  lemma ReadsLaid(lead: string, t: Tree, rest: string)
    requires Separators(lead) && CString(rest) && Laid(t, rest)
    ensures var s := lead + Write(t, rest);
            CString(s) && ReadVar(s).Ok? && ReadVar(s).rest == rest && Denotes(t, ReadVar(s).value)
  {
    hide Laid, Write, Denotes;
    ReadsTree(t, rest);
    SkipSeparators(lead, Write(t, rest));
  }

  // ---- what is printed ----

  /** Printed forms spelled out: a value in a dict is printed at two more than its dict, ... */
  lemma NestedExample()
    ensures ToStr(JDict([Entry("a", JDict([]))]), 0) == "{\n\t\"a\": {\n\t\t}\n}"
  {
    TabsAre();
    NothingText(3);
    NothingText(1);
    DictText([], 2);
    FirstEntryText("a", JDict([]), [], 1);
    DictText([Entry("a", JDict([]))], 0);
    hide *;
  }

  /** ... entries are separated by a comma at the end of the line, ... */
  lemma DictExample()
    ensures ToStr(JDict([Entry("a", JInt(1)), Entry("b", JInt(2))]), 0) == "{\n\t\"a\": 1,\n\t\"b\": 2\n}"
  {
    TwoEntries(Entry("a", JInt(1)), Entry("b", JInt(2)));
    TabsAre();
    DictText([Entry("a", JInt(1)), Entry("b", JInt(2))], 0);
    hide *;
  }

  lemma TwoEntries(a: Entry, b: Entry)
    requires a == Entry("a", JInt(1)) && b == Entry("b", JInt(2))
    ensures EntriesText([a, b], 1) == "\t\"a\": 1,\n\t\"b\": 2\n"
  {
    TabsAre();
    NumberTexts();
    LastEntry(b);
    FirstEntryText("a", JInt(1), [b], 1);
    hide *;
    assert [a] + [b] == [a, b];
  }

  lemma LastEntry(b: Entry)
    requires b == Entry("b", JInt(2))
    ensures EntriesText([b], 1) == "\t\"b\": 2\n"
  {
    TabsAre();
    NumberTexts();
    NothingText(1);
    FirstEntryText("b", JInt(2), [], 1);
    hide *;
  }

  /** ... so are elements, ... */
  lemma ArrayExample()
    ensures ToStr(JArray([JInt(1), JInt(-12)]), 0) == "[\n\t1,\n\t-12\n]"
  {
    TabsAre();
    NumberTexts();
    NothingText(1);
    ArrayText([JInt(1), JInt(-12)], 0);
    FirstElementText(JInt(1), [JInt(-12)], 1);
    FirstElementText(JInt(-12), [], 1);
    hide *;
    assert [JInt(1)] + [JInt(-12)] == [JInt(1), JInt(-12)];
  }

  /** ... which are printed as if they were at the outermost level. */
  lemma ElementExample()
    ensures ToStr(JArray([JDict([])]), 2) == "[\n\t\t\t{\n}\n\t\t]"
  {
    TabsAre();
    DictText([], 0);
    NothingText(1);
    NothingText(3);
    ArrayText([JDict([])], 2);
    FirstElementText(JDict([]), [], 3);
    hide *;
  }

  lemma TabsAre()
    ensures Indent(0) == "" && Indent(1) == "\t" && Indent(2) == "\t\t" && Indent(3) == "\t\t\t"
  {
  }

  lemma NumberTexts()
    ensures ToStr(JInt(1), 0) == ToStr(JInt(1), 2) == "1" && ToStr(JInt(2), 2) == "2" && ToStr(JInt(-12), 0) == "-12"
  {
  }

  lemma NothingText(indent: nat)
    ensures EntriesText([], indent) == "" && ElementsText([], indent) == ""
  {
  }

  lemma DictText(es: seq<Entry>, indent: nat)
    ensures ToStr(JDict(es), indent) == "{\n" + (EntriesText(es, indent + 1) + (Indent(indent) + "}"))
  {
  }

  lemma ArrayText(vs: seq<Json>, indent: nat)
    ensures ToStr(JArray(vs), indent) == "[\n" + (ElementsText(vs, indent + 1) + (Indent(indent) + "]"))
  {
  }

  lemma FirstEntryText(key: string, v: Json, es: seq<Entry>, indent: nat)
    ensures EntriesText([Entry(key, v)] + es, indent) ==
            Indent(indent) + ("\"" + key + "\"" + (": " + (ToStr(v, indent + 1)
              + ((if es == [] then "\n" else ",\n") + EntriesText(es, indent)))))
  {
    assert ([Entry(key, v)] + es)[1..] == es;
  }

  lemma FirstElementText(v: Json, vs: seq<Json>, indent: nat)
    ensures ElementsText([v] + vs, indent) ==
            Indent(indent) + (ToStr(v, 0) + ((if vs == [] then "\n" else ",\n") + ElementsText(vs, indent)))
  {
    assert ([v] + vs)[1..] == vs;
  }
}
