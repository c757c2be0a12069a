/** The texts `json.dumps` writes into the columns of src/bilinc/core/audit.py, and that none of them runs on: no such
    text followed by a colon begins another. */
module JsonText {

  // ---------------------------------------------------------------- what json.dumps writes

  datatype Json = Null | Bool(value: bool) | Number(text: NumberText) | Text(chars: string) | Array(items: Items) | Object(fields: Fields)

  datatype Items = NoItems | Item(head: Json, tail: Items)

  datatype Fields = NoFields | Field(name: string, value: Json, tail: Fields)

  predicate IsNumberChar(c: char) {
    '0' <= c <= '9' || c == '+' || c == '-' || c == '.' || c == 'e'
  }

  predicate IsNumberText(s: string) {
    s == "NaN" || s == "Infinity" || s == "-Infinity" || (s != "" && forall c :: c in s ==> IsNumberChar(c))
  }

  type NumberText = s: string | IsNumberText(s) witness "0"

  function HexDigit(n: nat): (digit: char)
    requires n < 16
    ensures '0' <= digit <= '9' || 'a' <= digit <= 'f'
  {
    if n < 10 then '0' + n as char else 'a' + (n - 10) as char
  }

  function Hex4(n: nat): string
    requires n < 0x10000
  {
    [HexDigit(n / 0x1000), HexDigit(n / 0x100 % 16), HexDigit(n / 16 % 16), HexDigit(n % 16)]
  }

  // One character of a string; what is not printable ASCII is written as UTF-16 code units.
  function Escape(c: char): string {
    if c == '"' then "\\\"" else if c == '\\' then "\\\\"
    else if c == '\n' then "\\n" else if c == '\r' then "\\r" else if c == '\t' then "\\t"
    else if c == '\U{8}' then "\\b" else if c == '\U{c}' then "\\f"
    else if ' ' <= c <= '~' then [c]
    else if c as int < 0x10000 then "\\u" + Hex4(c as int)
    else
      var n := c as int - 0x10000;
      "\\u" + Hex4(0xd800 + n / 0x400) + "\\u" + Hex4(0xdc00 + n % 0x400)
  }

  function EscapeAll(chars: string): string {
    if chars == "" then "" else Escape(chars[0]) + EscapeAll(chars[1..])
  }

  function Quoted(chars: string): string {
    "\"" + EscapeAll(chars) + "\""
  }

  function Dumps(j: Json): string {
    match j
    case Null => "null"
    case Bool(value) => if value then "true" else "false"
    case Number(text) => text
    case Text(chars) => Quoted(chars)
    case Array(items) => "[" + DumpsItems(items) + "]"
    case Object(fields) => "{" + DumpsFields(fields) + "}"
  }

  function DumpsItems(items: Items): string {
    match items
    case NoItems => ""
    case Item(head, tail) => Dumps(head) + (if tail.NoItems? then "" else ", ") + DumpsItems(tail)
  }

  function DumpsFields(fields: Fields): string {
    match fields
    case NoFields => ""
    case Field(name, value, tail) => Quoted(name) + ": " + Dumps(value) + (if tail.NoFields? then "" else ", ") + DumpsFields(tail)
  }

  /** Strings are written in printable ASCII: the quote, the backslash and the short escapes of RFC 8259, section 7, as such,
      and everything else outside it as the four hexadecimal digits of each UTF-16 unit. */
  lemma EscapeIs(c: char, x: nat, y: nat, z: nat, w: nat, high: nat, low: nat)
    requires x < 16 && y < 16 && z < 16 && w < 16 && low < 0x400
    ensures Escape('\"') == "\\\"" && Escape('\\') == "\\\\"
    ensures Escape('\n') == "\\n" && Escape('\r') == "\\r" && Escape('\t') == "\\t" && Escape('\U{8}') == "\\b" && Escape('\U{c}') == "\\f"
    ensures 32 <= c as int < 127 && c != '\"' && c != '\\' ==> Escape(c) == [c]
    ensures (c as int < 32 || 127 <= c as int < 0x10000) && c != '\n' && c != '\r' && c != '\t' && c != '\U{8}' && c != '\U{c}' ==>
      Escape(c) == "\\u" + Hex4(c as int)
    ensures c as int == 0x10000 + high * 0x400 + low ==> Escape(c) == "\\u" + Hex4(0xd800 + high) + "\\u" + Hex4(0xdc00 + low)
    ensures Hex4(((x * 16 + y) * 16 + z) * 16 + w) == [HexDigit(x), HexDigit(y), HexDigit(z), HexDigit(w)]
    ensures HexDigit(x) as int == if x < 10 then 48 + x else 97 + (x - 10)
  {
    hide HexDigit;
    HexDigits(x, y, z, w);
    HexDigitIs(x);
  }

  lemma HexDigits(x: nat, y: nat, z: nat, w: nat)
    requires x < 16 && y < 16 && z < 16 && w < 16
    ensures var n := ((x * 16 + y) * 16 + z) * 16 + w;
      n < 0x10000 && n / 0x1000 == x && n / 0x100 % 16 == y && n / 16 % 16 == z && n % 16 == w
  {
  }

  lemma HexDigitIs(x: nat)
    requires x < 16
    ensures HexDigit(x) as int == if x < 10 then 48 + x else 97 + (x - 10)
  {
  }

  /** The texts of `json.dumps`: items and fields apart by a comma and a blank, a field's value after a colon and a blank. */
  lemma DumpsIs(chars: string, head: Json, items: Items, name: string, fields: Fields)
    ensures Dumps(Null) == "null" && Dumps(Bool(true)) == "true" && Dumps(Bool(false)) == "false"
    ensures Dumps(Text(chars)) == "\"" + EscapeAll(chars) + "\""
    ensures chars != "" ==> EscapeAll(chars) == Escape(chars[0]) + EscapeAll(chars[1..])
    ensures Dumps(Array(items)) == "[" + DumpsItems(items) + "]" && Dumps(Object(fields)) == "{" + DumpsFields(fields) + "}"
    ensures DumpsItems(NoItems) == "" && DumpsFields(NoFields) == ""
    ensures DumpsItems(Item(head, items)) == Dumps(head) + (if items == NoItems then "" else ", ") + DumpsItems(items)
    ensures DumpsFields(Field(name, head, fields)) ==
      "\"" + EscapeAll(name) + "\"" + ": " + Dumps(head) + (if fields == NoFields then "" else ", ") + DumpsFields(fields)
  {
    hide Escape;
  }

  // ---------------------------------------------------------------- reading brackets and strings

  /** Where a reader stands: outside strings or inside one, that many brackets deep. */
  datatype Place = Outside(depth: nat) | Inside(depth: nat) | Escaping(depth: nat) | Broken

  function Step(p: Place, c: char): Place {
    match p
    case Outside(d) =>
      if c == '"' then Inside(d) else if c == '\\' then Broken
      else if c == '[' || c == '{' then Outside(d + 1)
      else if c == ']' || c == '}' then (if d == 0 then Broken else Outside(d - 1))
      else p
    case Inside(d) => if c == '"' then Outside(d) else if c == '\\' then Escaping(d) else p
    case Escaping(d) => Inside(d)
    case Broken => Broken
  }

  function Read(p: Place, s: string): Place
    decreases s
  {
    if s == "" then p else Read(Step(p, s[0]), s[1..])
  }

  const TOP := Outside(0)

  ghost predicate Balanced(s: string) {
    Read(TOP, s) == TOP
  }

  /** Everything closes, and every colon is inside brackets or a string. */
  ghost predicate Enclosed(s: string) {
    Balanced(s) && forall i :: 0 <= i < |s| && s[i] == ':' ==> Read(TOP, s[..i]) != TOP
  }

  lemma {:induction false} ReadOn(p: Place, s: string, t: string)
    ensures Read(p, s + t) == Read(Read(p, s), t)
    decreases s
  {
    if s == "" {
      assert s + t == t;
    } else {
      assert (s + t)[0] == s[0] && (s + t)[1..] == s[1..] + t;
      ReadOn(Step(p, s[0]), s[1..], t);
    }
  }

  lemma ReadChar(p: Place, c: char)
    ensures Read(p, [c]) == Step(p, c)
  {
    assert [c][1..] == "";
  }

  // Reading prefix by prefix.
  lemma ReadNext(p: Place, s: string, i: nat)
    requires i < |s|
    ensures Read(p, s[..i + 1]) == Step(Read(p, s[..i]), s[i])
  {
    assert s[..i + 1] == s[..i] + [s[i]];
    ReadOn(p, s[..i], [s[i]]);
    ReadChar(Read(p, s[..i]), s[i]);
  }

  lemma {:induction false} ReadBroken(s: string)
    ensures Read(Broken, s) == Broken
  {
    if s != "" {
      ReadBroken(s[1..]);
    }
  }

  function Deeper(p: Place, k: nat): Place {
    match p
    case Outside(d) => Outside(d + k)
    case Inside(d) => Inside(d + k)
    case Escaping(d) => Escaping(d + k)
    case Broken => Broken
  }

  // What reads without breaking reads the same way inside more brackets.
  lemma {:induction false} ReadDeeper(p: Place, s: string, k: nat)
    requires Read(p, s) != Broken
    ensures Read(Deeper(p, k), s) == Deeper(Read(p, s), k)
    decreases s
  {
    if s != "" {
      if Step(p, s[0]) == Broken {
        ReadBroken(s[1..]);
      }
      ReadDeeper(Step(p, s[0]), s[1..], k);
    }
  }

  predicate Opposite(p: Place, q: Place) {
    q.Broken? || (p.Outside? && q.Inside?) || (p.Inside? && q.Outside?)
  }

  // A reader who takes strings for what is between them, and the other way round, stays wrong.
  lemma {:induction false} ReadOpposite(p: Place, q: Place, s: string)
    requires Opposite(p, q) && Read(p, s) != Broken
    ensures Opposite(Read(p, s), Read(q, s))
    decreases s
  {
    if s != "" {
      if Step(p, s[0]) == Broken || Step(q, s[0]) == Broken {
        ReadBroken(s[1..]);
      }
      if Step(p, s[0]) != Broken {
        ReadOpposite(Step(p, s[0]), Step(q, s[0]), s[1..]);
      }
    }
  }

  // ---------------------------------------------------------------- json.dumps encloses its colons

  predicate IsPlainChar(c: char) {
    c != '"' && c != '\\' && c != '[' && c != ']' && c != '{' && c != '}' && c != ':'
  }

  predicate Plain(s: string) {
    forall c :: c in s ==> IsPlainChar(c)
  }

  lemma {:induction false} PlainReads(s: string, d: nat)
    requires Plain(s)
    ensures Read(Outside(d), s) == Outside(d)
  {
    if s != "" {
      assert s[0] in s;
      assert Plain(s[1..]) by {
        assert forall c :: c in s[1..] ==> c in s;
      }
      PlainReads(s[1..], d);
    }
  }

  lemma PlainIsEnclosed(s: string)
    requires Plain(s)
    ensures Enclosed(s)
  {
    PlainReads(s, 0);
    assert forall i :: 0 <= i < |s| ==> s[i] in s;
  }

  lemma BalancedTogether(s: string, t: string)
    requires Balanced(s) && Balanced(t)
    ensures Balanced(s + t)
  {
    ReadOn(TOP, s, t);
  }

  lemma BracketsEnclose(open: char, s: string, close: char)
    requires Balanced(s) && (open == '[' || open == '{') && (close == ']' || close == '}')
    ensures Enclosed([open] + s + [close])
  {
    hide Read;
    var t := [open] + s + [close];
    forall i | 0 <= i < |t| && t[i] == ':'
      ensures Read(TOP, t[..i]) != TOP
    {
      ReadInBrackets(open, s, close, i - 1);
    }
    ReadInBrackets(open, s, close, |s|);
    assert s[..|s|] == s && t[..|s| + 2] == t;
    ReadNext(TOP, t, |s| + 1);
  }

  lemma ReadInBrackets(open: char, s: string, close: char, i: nat)
    requires Balanced(s) && (open == '[' || open == '{') && i <= |s|
    ensures Read(TOP, ([open] + s + [close])[..i + 1]) == Deeper(Read(TOP, s[..i]), 1)
  {
    hide Read;
    assert ([open] + s + [close])[..i + 1] == [open] + s[..i];
    assert s == s[..i] + s[i..];
    ReadOn(TOP, [open], s[..i]);
    ReadChar(TOP, open);
    ReadOn(TOP, s[..i], s[i..]);
    ReadBroken(s[i..]);
    ReadDeeper(TOP, s[..i], 1);
  }

  // Read from inside a string, the text ends there and never leaves it.
  ghost predicate StaysInside(s: string) {
    Read(Inside(0), s) == Inside(0) && forall i :: 0 <= i <= |s| ==> !Read(Inside(0), s[..i]).Outside?
  }

  lemma StaysInsideTogether(s: string, t: string)
    requires StaysInside(s) && StaysInside(t)
    ensures StaysInside(s + t)
  {
    ReadOn(Inside(0), s, t);
    forall i | 0 <= i <= |s + t|
      ensures !Read(Inside(0), (s + t)[..i]).Outside?
    {
      if i <= |s| {
        assert (s + t)[..i] == s[..i];
      } else {
        assert (s + t)[..i] == s + t[..i - |s|];
        ReadOn(Inside(0), s, t[..i - |s|]);
      }
    }
  }

  lemma {:induction false} OrdinaryStaysInside(s: string)
    requires forall c :: c in s ==> c != '"' && c != '\\'
    ensures StaysInside(s)
  {
    if s == "" {
      assert s[..0] == "";
    } else {
      var n := |s| - 1;
      assert s[n] in s;
      assert forall c :: c in s[..n] ==> c in s;
      OrdinaryStaysInside(s[..n]);
      ReadNext(Inside(0), s, n);
      assert s[..n + 1] == s;
      forall i | 0 <= i <= n
        ensures !Read(Inside(0), s[..i]).Outside?
      {
        assert s[..n][..i] == s[..i];
      }
    }
  }

  lemma BackslashPairStaysInside(c: char)
    ensures StaysInside(['\\', c])
  {
    var s := ['\\', c];
    assert s[..0] == "" && s[..1] == "\\" && s[..2] == s;
    ReadNext(Inside(0), s, 0);
    ReadNext(Inside(0), s, 1);
  }

  lemma UnicodeEscapeStaysInside(n: nat)
    requires n < 0x10000
    ensures StaysInside("\\u" + Hex4(n))
  {
    BackslashPairStaysInside('u');
    OrdinaryStaysInside(Hex4(n));
    StaysInsideTogether("\\u", Hex4(n));
  }

  lemma EscapeStaysInside(c: char)
    ensures StaysInside(Escape(c))
  {
    hide StaysInside, Hex4;
    if c == '"' || c == '\\' {
      BackslashPairStaysInside(c);
    } else if c == '\n' || c == '\r' || c == '\t' || c == '\U{8}' || c == '\U{c}' {
      BackslashPairStaysInside(Escape(c)[1]);
      assert Escape(c) == ['\\', Escape(c)[1]];
    } else if ' ' <= c <= '~' {
      OrdinaryStaysInside([c]);
    } else if c as int < 0x10000 {
      UnicodeEscapeStaysInside(c as int);
    } else {
      SurrogatesStayInside(c as int - 0x10000);
    }
  }

  lemma SurrogatesStayInside(n: nat)
    requires n < 0x100000
    ensures StaysInside("\\u" + Hex4(0xd800 + n / 0x400) + "\\u" + Hex4(0xdc00 + n % 0x400))
  {
    hide Hex4, StaysInside;
    var high, low := "\\u" + Hex4(0xd800 + n / 0x400), "\\u" + Hex4(0xdc00 + n % 0x400);
    UnicodeEscapeStaysInside(0xd800 + n / 0x400);
    UnicodeEscapeStaysInside(0xdc00 + n % 0x400);
    StaysInsideTogether(high, low);
    assert high + low == "\\u" + Hex4(0xd800 + n / 0x400) + "\\u" + Hex4(0xdc00 + n % 0x400);
  }

  lemma {:induction false} EscapeAllStaysInside(chars: string)
    ensures StaysInside(EscapeAll(chars))
  {
    if chars == "" {
      OrdinaryStaysInside("");
    } else {
      EscapeStaysInside(chars[0]);
      EscapeAllStaysInside(chars[1..]);
      StaysInsideTogether(Escape(chars[0]), EscapeAll(chars[1..]));
    }
  }

  lemma QuotedIsEnclosed(chars: string)
    ensures Enclosed(Quoted(chars))
  {
    hide EscapeAll;
    var e, t := EscapeAll(chars), Quoted(chars);
    EscapeAllStaysInside(chars);
    ReadChar(TOP, '"');
    forall i | 0 <= i <= |e|
      ensures Read(TOP, t[..i + 1]) == Read(Inside(0), e[..i])
    {
      assert t[..i + 1] == "\"" + e[..i];
      ReadOn(TOP, "\"", e[..i]);
    }
    assert e[..|e|] == e && t[..|e| + 2] == t;
    ReadNext(TOP, t, |e| + 1);
    forall i | 0 <= i < |t| && t[i] == ':'
      ensures Read(TOP, t[..i]) != TOP
    {
      var k := i - 1;
      assert t[..k + 1] == t[..i] && Read(TOP, t[..k + 1]) == Read(Inside(0), e[..k]);
    }
  }

  /** In every text `json.dumps` writes, brackets and strings close and every colon is inside one of them. */
  lemma {:induction false} DumpsIsEnclosed(j: Json)
    ensures Enclosed(Dumps(j))
    decreases j
  {
    hide Enclosed, Balanced, Quoted, DumpsItems, DumpsFields;
    match j
    case Null => WordsArePlain(); PlainIsEnclosed("null");
    case Bool(value) => WordsArePlain(); PlainIsEnclosed(Dumps(j));
    case Number(text) => NumbersArePlain(text); PlainIsEnclosed(text);
    case Text(chars) => QuotedIsEnclosed(chars);
    case Array(items) =>
      ItemsAreBalanced(items);
      BracketsEnclose('[', DumpsItems(items), ']');
    case Object(fields) =>
      FieldsAreBalanced(fields);
      BracketsEnclose('{', DumpsFields(fields), '}');
  }

  lemma WordsArePlain()
    ensures Plain("null") && Plain("true") && Plain("false") && Plain("None") && Plain(", ") && Plain("")
  {
  }

  lemma NumbersArePlain(s: NumberText)
    ensures Plain(s)
  {
  }

  lemma {:induction false} ItemsAreBalanced(items: Items)
    ensures Balanced(DumpsItems(items))
    decreases items
  {
    hide Dumps;
    match items
    case NoItems =>
    case Item(head, tail) =>
      DumpsIsEnclosed(head);
      ItemsAreBalanced(tail);
      var gap := if tail.NoItems? then "" else ", ";
      WordsArePlain();
      PlainIsEnclosed(gap);
      BalancedTogether(Dumps(head), gap);
      BalancedTogether(Dumps(head) + gap, DumpsItems(tail));
  }

  lemma {:induction false} FieldsAreBalanced(fields: Fields)
    ensures Balanced(DumpsFields(fields))
    decreases fields
  {
    hide Dumps, Quoted;
    match fields
    case NoFields =>
    case Field(name, value, tail) =>
      QuotedIsEnclosed(name);
      ColonIsBalanced();
      BalancedTogether(Quoted(name), ": ");
      DumpsIsEnclosed(value);
      BalancedTogether(Quoted(name) + ": ", Dumps(value));
      FieldsAreBalanced(tail);
      var gap := if tail.NoFields? then "" else ", ";
      WordsArePlain();
      PlainIsEnclosed(gap);
      BalancedTogether(Quoted(name) + ": " + Dumps(value), gap);
      BalancedTogether(Quoted(name) + ": " + Dumps(value) + gap, DumpsFields(tail));
  }

  lemma ColonIsBalanced()
    ensures Balanced(":") && Balanced(": ")
  {
    ReadChar(TOP, ':');
    ReadChar(TOP, ' ');
    ReadOn(TOP, ":", " ");
    assert ": " == ":" + " ";
  }

  // ---------------------------------------------------------------- telling joined texts apart

  /** One of the texts, with a colon after it, begins the other. */
  predicate RunsOn(x: string, y: string) {
    x + ":" <= y || y + ":" <= x
  }

  /** Two texts joined by a colon to what follows are told apart exactly when neither runs on into the other. */
  lemma JoinsApart(x: string, r: string, y: string, s: string)
    requires x + ":" + r == y + ":" + s
    ensures x == y <==> !RunsOn(x, y)
    ensures x == y ==> r == s
  {
    var t := x + ":" + r;
    assert t[..|x|] == x && t[..|y|] == y && t[|x|] == ':' && t[|y|] == ':';
    assert t[|x| + 1..] == r && t[|y| + 1..] == s;
    assert t[..|x| + 1] == x + ":" && t[..|y| + 1] == y + ":";
    if |x| < |y| {
      assert y == t[..|y|] && t[..|y|][..|x| + 1] == t[..|x| + 1];
      assert x + ":" <= y;
    } else if |y| < |x| {
      assert x == t[..|x|] && t[..|x|][..|y| + 1] == t[..|y| + 1];
      assert y + ":" <= x;
    }
  }

  lemma NoneRunsInto(x: string, y: string)
    requires Balanced(x) && Enclosed(y)
    ensures !(x + ":" <= y)
  {
    if |x| < |y| && y[..|x|] == x && y[|x|] == ':' {
      assert false;
    }
  }

  /** Texts with enclosed colons never run on. */
  lemma EnclosedDoNotRunOn(x: string, y: string)
    requires Enclosed(x) && Enclosed(y)
    ensures !RunsOn(x, y)
  {
    NoneRunsInto(x, y);
    NoneRunsInto(y, x);
  }

  lemma DumpsIsNotNone(j: Json)
    ensures Dumps(j) != "None"
  {
    assert "None"[0] == 'N' && "None"[1] == 'o' && 'o' in "None";
  }

  // ---------------------------------------------------------------- three texts after a name

  function Joined(x: string, y: string, z: string): string {
    x + ":" + y + ":" + z
  }

  ghost predicate AllEnclosed(x: string, y: string, z: string) {
    Enclosed(x) && Enclosed(y) && Enclosed(z)
  }

  lemma JoinedReads(p: Place, x: string, y: string, z: string)
    ensures Read(p, Joined(x, y, z)) == Read(Read(Read(Read(Read(p, x), ":"), y), ":"), z)
  {
    ReadOn(p, x, ":");
    ReadOn(p, x + ":", y);
    ReadOn(p, x + ":" + y, ":");
    ReadOn(p, x + ":" + y + ":", z);
  }

  // Read from anywhere but the top, enclosed texts do not end at the top.
  lemma JoinedReadElsewhere(p: Place, x: string, y: string, z: string)
    requires AllEnclosed(x, y, z) && (p.Inside? || (p.Outside? && p.depth > 0))
    ensures Read(p, Joined(x, y, z)) != TOP
  {
    hide Read;
    JoinedReads(p, x, y, z);
    JoinedReads(TOP, x, y, z);
    ReadChar(TOP, ':');
    ReadChar(p, ':');
    if p.Outside? {
      ReadDeeper(TOP, x, p.depth);
      ReadDeeper(TOP, y, p.depth);
      ReadDeeper(TOP, z, p.depth);
    } else {
      ReadOpposite(TOP, p, Joined(x, y, z));
    }
  }

  // The only colons at the top are the two that join.
  lemma ColonsAtTop(x: string, y: string, z: string, p: nat)
    requires AllEnclosed(x, y, z) && p < |Joined(x, y, z)|
    requires var t := Joined(x, y, z); t[p] == ':' && Read(TOP, t[..p]) == TOP
    ensures p == |x| || p == |x| + 1 + |y|
  {
    hide Read;
    var t := Joined(x, y, z);
    ReadChar(TOP, ':');
    ReadOn(TOP, x, ":");
    forall k | 0 <= k < |x|
      ensures t[..k] == x[..k] && t[k] == x[k]
    {
    }
    if |x| < p < |x| + 1 + |y| {
      var k := p - |x| - 1;
      assert t[..p] == x + ":" + y[..k] && t[p] == y[k];
      ReadOn(TOP, x + ":", y[..k]);
    } else if |x| + 1 + |y| < p {
      var k := p - |x| - |y| - 2;
      assert t[..p] == x + ":" + y + ":" + z[..k] && t[p] == z[k];
      ReadOn(TOP, x + ":", y);
      ReadOn(TOP, x + ":" + y, ":");
      ReadOn(TOP, x + ":" + y + ":", z[..k]);
    }
  }

  // What follows a colon of three joined enclosed texts is never again three joined enclosed texts.
  lemma NoJoinInside(r: string, x: string, y: string, z: string, x': string, y': string, z': string)
    requires AllEnclosed(x, y, z) && AllEnclosed(x', y', z')
    ensures r + ":" + Joined(x', y', z') != Joined(x, y, z)
  {
    hide Read;
    var t, u := Joined(x, y, z), Joined(x', y', z');
    if r + ":" + u == t {
      var p := |r|;
      assert t[p] == ':' && t[..p] == r && t[..p + 1] == r + ":" && t[p + 1..] == u;
      var before, after := Read(TOP, r), Read(TOP, r + ":");
      ReadOn(TOP, r, ":");
      ReadChar(before, ':');
      ReadOn(TOP, r + ":", u);
      ReadBroken(u);
      JoinedReads(TOP, x, y, z);
      ReadChar(TOP, ':');
      if after == TOP {
        ColonsAtTop(x, y, z, p);
        NotAfterItsOwnColon(r, x, y, z, x', y', z');
      } else {
        JoinedReadElsewhere(after, x', y', z');
      }
    }
  }

  lemma NotAfterItsOwnColon(r: string, x: string, y: string, z: string, x': string, y': string, z': string)
    requires AllEnclosed(x, y, z) && AllEnclosed(x', y', z') && (|r| == |x| || |r| == |x| + 1 + |y|)
    ensures r + ":" + Joined(x', y', z') != Joined(x, y, z)
  {
    hide Read, Enclosed;
    var t := Joined(x, y, z);
    if r + ":" + Joined(x', y', z') == t {
      if |r| == |x| {
        assert t[|r| + 1..] == y + ":" + z && t[|r| + 1..] == x' + ":" + (y' + ":" + z');
        EnclosedDoNotRunOn(x', y);
        JoinsApart(x', y' + ":" + z', y, z);
        assert y' + ":" <= z;
        EnclosedDoNotRunOn(y', z);
      } else {
        assert t[|r| + 1..] == z && t[|r| + 1..] == x' + ":" + (y' + ":" + z');
        assert z == (x' + ":") + (y' + ":" + z');
        assert x' + ":" <= z;
        EnclosedDoNotRunOn(x', z);
      }
    }
  }

  /** Whatever the name is: a name and three enclosed texts come back from their joined text. */
  lemma NameAndTextsComeBack(name: string, x: string, y: string, z: string, name': string, x': string, y': string, z': string)
    requires AllEnclosed(x, y, z) && AllEnclosed(x', y', z')
    requires name + ":" + Joined(x, y, z) == name' + ":" + Joined(x', y', z')
    ensures name == name' && x == x' && y == y' && z == z'
  {
    hide Enclosed, Joined;
    var t, u := Joined(x, y, z), Joined(x', y', z');
    var all := name + ":" + t;
    if |name| < |name'| {
      var r := name'[|name| + 1..];
      assert all[|name| + 1..] == t && all[..|name'|] == name' && all[|name'|..] == ":" + u;
      assert t == r + ":" + u;
      NoJoinInside(r, x, y, z, x', y', z');
    } else if |name'| < |name| {
      var r := name[|name'| + 1..];
      assert all[|name'| + 1..] == u && all[..|name|] == name && all[|name|..] == ":" + t;
      assert u == r + ":" + t;
      NoJoinInside(r, x', y', z', x, y, z);
    } else {
      assert all[..|name|] == name && all[..|name'|] == name' && all[|name| + 1..] == t && all[|name'| + 1..] == u;
      TextsComeBack(x, y, z, x', y', z');
    }
  }

  lemma TextsComeBack(x: string, y: string, z: string, x': string, y': string, z': string)
    requires AllEnclosed(x, y, z) && AllEnclosed(x', y', z') && Joined(x, y, z) == Joined(x', y', z')
    ensures x == x' && y == y' && z == z'
  {
    hide Enclosed;
    assert Joined(x, y, z) == x + ":" + (y + ":" + z) && Joined(x', y', z') == x' + ":" + (y' + ":" + z');
    EnclosedDoNotRunOn(x, x');
    JoinsApart(x, y + ":" + z, x', y' + ":" + z');
    EnclosedDoNotRunOn(y, y');
    JoinsApart(y, z, y', z');
  }
}
