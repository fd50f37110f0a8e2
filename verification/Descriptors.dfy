/** Field and method descriptors (janadinite-parse/src/class.rs:742-858). */
module Descriptors {
  import opened Wrappers

  datatype FieldDescriptor = Int | Long | Bool | Char | Byte | Short | Float | Double | Object(name: string) | Array

  function SlotCount(d: FieldDescriptor): nat {
    if d.Long? || d.Double? then 2 else 1
  }

  function IndexOf(s: string, c: char): (r: Option<nat>)
    ensures r.Some? ==> r.value < |s| && s[r.value] == c && c !in s[..r.value]
    ensures r.None? ==> c !in s
  {
    if s == [] then None
    else if s[0] == c then Some(0)
    else
      match IndexOf(s[1..], c)
      case None => None
      case Some(i) =>
        assert s[..i + 1] == [s[0]] + s[1..][..i];
        Some(i + 1)
  }

  function Simple(c: char): Option<FieldDescriptor> {
    match c
    case 'I' => Some(Int)
    case 'J' => Some(Long)
    case 'D' => Some(Double)
    case 'F' => Some(Float)
    case 'S' => Some(Short)
    case 'C' => Some(Char)
    case 'B' => Some(Byte)
    case 'Z' => Some(Bool)
    case '[' => Some(Array)
    case _ => None
  }

  /** One step of the iterator of `from_str`: the next descriptor, and what is left of the text. */
  function NextField(data: string): (Option<FieldDescriptor>, string) {
    if data == [] then (None, data)
    else if data[0] == 'L' then
      match IndexOf(data[1..], ';')
      case None => (None, data[1..])
      case Some(semi) => (Some(Object(data[1..][..semi])), data[semi + 2..])
    else (Simple(data[0]), data[1..])
  }

  /** Everything that the iterator yields. */
  function Fields(data: string): seq<FieldDescriptor>
    decreases |data|
  {
    match NextField(data)
    case (None, _) => []
    case (Some(d), rest) => [d] + Fields(rest)
  }

  // ----- method descriptors

  predicate IsParen(c: char) {
    c == '(' || c == ')'
  }

  /** The pieces of the text between parentheses. */
  function Split(s: string): (pieces: seq<string>)
    ensures |pieces| > 0
    decreases |s|
  {
    var i := FirstParen(s);
    if i == |s| then [s] else [s[..i]] + Split(s[i + 1..])
  }

  function FirstParen(s: string): (i: nat)
    ensures i <= |s| && (i < |s| ==> IsParen(s[i]))
    ensures forall k :: 0 <= k < i ==> !IsParen(s[k])
  {
    if s == [] || IsParen(s[0]) then 0 else 1 + FirstParen(s[1..])
  }

  datatype MethodDescriptor = MethodDescriptor(args: string, ret: string)

  /** `MethodDescriptor::new`: the second piece and the third. */
  function Parse(desc: string): MethodDescriptor {
    var pieces := Split(desc);
    MethodDescriptor(if |pieces| > 1 then pieces[1] else "", if |pieces| > 2 then pieces[2] else "")
  }

  function Brackets(data: string): (i: nat)
    ensures i <= |data| && (i < |data| ==> data[i] != '[')
    ensures forall k :: 0 <= k < i ==> data[k] == '['
  {
    if data == [] || data[0] != '[' then 0 else 1 + Brackets(data[1..])
  }

  /** How many bytes of the text the next parameter takes. */
  function NextLength(data: string): (n: Option<nat>)
    ensures n.Some? ==> 0 < n.value <= |data|
  {
    var i := Brackets(data);
    if i == |data| then None
    else if data[i] == 'L' then
      match IndexOf(data[i..], ';')
      case None => None
      case Some(semi) => Some(i + semi + 1)
    else Some(i + 1)
  }

  /** The parameters that `args` yields. */
  function Args(data: string): seq<string>
    decreases |data|
  {
    match NextLength(data)
    case None => []
    case Some(n) => [data[..n]] + Args(data[n..])
  }

  /** The slots of one parameter: those of its first descriptor. */
  function ItemSlots(item: string): nat {
    match NextField(item).0
    case None => 0
    case Some(d) => SlotCount(d)
  }

  function SumSlots(items: seq<string>): nat {
    if items == [] then 0 else ItemSlots(items[0]) + SumSlots(items[1..])
  }

  /** `args_size`. */
  function ArgsSize(desc: string): nat {
    SumSlots(Args(Parse(desc).args))
  }

  /** The iterator over the parameters. */
  class ArgCursor {
    var data: string

    constructor (text: string)
      ensures data == text
    {
      data := text;
    }

    method Next() returns (item: Option<string>)
      modifies this
      ensures match NextLength(old(data))
              case None => item == None && data == old(data)
              case Some(n) => item == Some(old(data)[..n]) && data == old(data)[n..]
    {
      if data == [] {
        return None;
      }
      var i := 0;
      while i < |data| && data[i] == '['
        invariant i <= |data| && forall k :: 0 <= k < i ==> data[k] == '['
      {
        i := i + 1;
      }
      assert i == Brackets(data);
      if i == |data| {
        return None;
      }
      var end := i + 1;
      if data[i] == 'L' {
        var semi := IndexOf(data[i..], ';');
        if semi.None? {
          return None;
        }
        end := i + semi.value + 1;
      }
      item := Some(data[..end]);
      data := data[end..];
    }
  }

  /** `args_size` with the iterator. */
  method ComputeArgsSize(desc: string) returns (size: nat)
    ensures size == ArgsSize(desc)
  {
    var cursor := new ArgCursor(Parse(desc).args);
    size := 0;
    var item := cursor.Next();
    while item.Some?
      invariant item.Some? ==> ArgsSize(desc) == size + ItemSlots(item.value) + SumSlots(Args(cursor.data))
      invariant item.None? ==> ArgsSize(desc) == size
      decreases if item.Some? then |cursor.data| + 1 else 0
    {
      size := size + ItemSlots(item.value);
      ghost var rest := cursor.data;
      item := cursor.Next();
    }
  }

  // ----- the grammar

  /** The types of section 4.3.2 of the Java Virtual Machine Specification. */
  datatype FieldType = Base(c: char) | Class(name: string) | ArrayOf(element: FieldType)

  predicate IsBase(c: char) {
    c == 'B' || c == 'C' || c == 'D' || c == 'F' || c == 'I' || c == 'J' || c == 'S' || c == 'Z'
  }

  predicate ValidType(t: FieldType) {
    match t
    case Base(c) => IsBase(c)
    case Class(name) => ';' !in name
    case ArrayOf(e) => ValidType(e)
  }

  predicate ParenFree(t: FieldType) {
    match t
    case Base(_) => true
    case Class(name) => '(' !in name && ')' !in name
    case ArrayOf(e) => ParenFree(e)
  }

  function Print(t: FieldType): (s: string)
    ensures |s| > 0
  {
    match t
    case Base(c) => [c]
    case Class(name) => "L" + name + ";"
    case ArrayOf(e) => "[" + Print(e)
  }

  function PrintAll(ts: seq<FieldType>): string {
    if ts == [] then [] else Print(ts[0]) + PrintAll(ts[1..])
  }

  function PrintEach(ts: seq<FieldType>): seq<string> {
    if ts == [] then [] else [Print(ts[0])] + PrintEach(ts[1..])
  }

  /** The stack slots of a value: two for long and double, one for anything else, arrays included. */
  function TypeSlots(t: FieldType): nat {
    if t == Base('J') || t == Base('D') then 2 else 1
  }

  function TotalSlots(ts: seq<FieldType>): nat {
    if ts == [] then 0 else TypeSlots(ts[0]) + TotalSlots(ts[1..])
  }

  /** The descriptors in a type, outermost first. */
  function Flatten(t: FieldType): seq<FieldDescriptor>
    requires ValidType(t)
  {
    match t
    case Base(c) => [Simple(c).value]
    case Class(name) => [Object(name)]
    case ArrayOf(e) => [Array] + Flatten(e)
  }

  /** The letter that stands for a kind. */
  function Letter(d: FieldDescriptor): char {
    match d
    case Bool => 'Z'
    case Byte => 'B'
    case Char => 'C'
    case Double => 'D'
    case Float => 'F'
    case Int => 'I'
    case Long => 'J'
    case Short => 'S'
    case Object(_) => 'L'
    case Array => '['
  }

  /** The kind that is read is the one that the letter stands for; the letters of the primitive types, and no others,
      are base types; and only `J` and `D` take two slots. */
  lemma {:induction false} LettersExact(data: string)
    requires data != []
    ensures var d := NextField(data).0;
            && (d.Some? ==> Letter(d.value) == data[0])
            && (data[0] != 'L' ==> (d.None? <==> !IsBase(data[0]) && data[0] != '['))
            && (d.Some? ==> SlotCount(d.value) == if data[0] == 'J' || data[0] == 'D' then 2 else 1)
    ensures forall t: FieldType :: t.Base? && ValidType(t) ==> Letter(Flatten(t)[0]) == t.c
  {
  }

  lemma {:induction false} IndexOfUnique(s: string, c: char, i: nat)
    requires i < |s| && s[i] == c && c !in s[..i]
    ensures IndexOf(s, c) == Some(i)
  {
  }

  /** The iterator reads a printed type back, and stops where it ends. */
  lemma {:induction false} FieldsOfPrinted(t: FieldType, rest: string)
    requires ValidType(t)
    ensures Fields(Print(t) + rest) == Flatten(t) + Fields(rest)
  {
    hide NextField, Print;
    NextFieldOf(t, rest);
    if t.ArrayOf? {
      FieldsOfPrinted(t.element, rest);
      assert [Array] + (Flatten(t.element) + Fields(rest)) == Flatten(t) + Fields(rest);
    }
  }

  lemma {:induction false} NextFieldOf(t: FieldType, rest: string)
    requires ValidType(t)
    ensures NextField(Print(t) + rest)
         == (Some(Flatten(t)[0]), if t.ArrayOf? then Print(t.element) + rest else rest)
  {
    hide NextField, IndexOf;
    match t
    case Base(c) => NextFieldSimple(c, rest);
    case Class(name) => NextFieldOfClass(name, rest);
    case ArrayOf(e) =>
      NextFieldSimple('[', Print(e) + rest);
      assert ['['] + (Print(e) + rest) == Print(t) + rest;
  }

  lemma {:induction false} NextFieldSimple(c: char, rest: string)
    requires c != 'L'
    ensures NextField([c] + rest) == (Simple(c), rest)
  {
  }

  lemma {:induction false} NextFieldOfClass(name: string, rest: string)
    requires ';' !in name
    ensures NextField(Print(Class(name)) + rest) == (Some(Object(name)), rest)
  {
    var data := Print(Class(name)) + rest;
    ClassText(name, rest);
    IndexOfUnique(data[1..], ';', |name|);
    assert data[|name| + 2..] == rest;
  }

  lemma {:induction false} ClassText(name: string, rest: string)
    requires ';' !in name
    ensures var data := Print(Class(name)) + rest;
            && data[0] == 'L' && |data| == |name| + 2 + |rest|
            && |data[1..]| > |name| && data[1..][|name|] == ';' && data[1..][..|name|] == name
  {
  }

  /** The next parameter of a printed list is exactly the first type. */
  lemma {:induction false} NextOfPrinted(t: FieldType, rest: string)
    requires ValidType(t)
    ensures NextLength(Print(t) + rest) == Some(|Print(t)|)
  {
    hide NextLength;
    match t
    case Base(c) => NextOfBase(c, rest);
    case Class(name) =>
      ClassText(name, rest);
      NextOfClass(Print(t) + rest, |name|);
    case ArrayOf(e) =>
      NextOfPrinted(e, rest);
      assert Print(t) + rest == "[" + (Print(e) + rest);
      NextOfArray(Print(e) + rest);
  }

  lemma {:induction false} NextOfBase(c: char, rest: string)
    requires IsBase(c)
    ensures NextLength([c] + rest) == Some(1)
  {
  }

  lemma {:induction false} NextOfClass(data: string, n: nat)
    requires |data| > n + 1 && data[0] == 'L' && data[1..][n] == ';' && ';' !in data[1..][..n]
    ensures NextLength(data) == Some(n + 2)
  {
  }

  lemma {:induction false} NextOfArray(inner: string)
    requires NextLength(inner).Some?
    ensures NextLength("[" + inner) == Some(NextLength(inner).value + 1)
  {
  }

  /** Splitting the parameters of a method gives exactly the printed types, in order. */
  lemma {:induction false} ArgsOfPrinted(ts: seq<FieldType>)
    requires forall t :: t in ts ==> ValidType(t)
    ensures Args(PrintAll(ts)) == PrintEach(ts)
  {
    if ts != [] {
      var text := PrintAll(ts);
      NextOfPrinted(ts[0], PrintAll(ts[1..]));
      ArgsOfPrinted(ts[1..]);
      assert text[..|Print(ts[0])|] == Print(ts[0]) && text[|Print(ts[0])|..] == PrintAll(ts[1..]);
    }
  }

  lemma {:induction false} SlotsOfPrinted(ts: seq<FieldType>)
    requires forall t :: t in ts ==> ValidType(t)
    ensures SumSlots(PrintEach(ts)) == TotalSlots(ts)
  {
    if ts != [] {
      ItemOfPrinted(ts[0]);
      SlotsOfPrinted(ts[1..]);
    }
  }

  lemma {:induction false} ItemOfPrinted(t: FieldType)
    requires ValidType(t)
    ensures ItemSlots(Print(t)) == TypeSlots(t)
  {
    match t
    case Base(_) =>
    case ArrayOf(_) =>
    case Class(name) =>
      var tail := Print(t)[1..];
      assert tail == name + ";" && tail[..|name|] == name;
      IndexOfUnique(tail, ';', |name|);
  }

  /** Text that begins with no type has no slots. */
  lemma {:induction false} NoSlots(item: string)
    ensures item == "" ==> ItemSlots(item) == 0
    ensures item != "" && !IsBase(item[0]) && item[0] != '[' && item[0] != 'L' ==> ItemSlots(item) == 0
    ensures item != "" && item[0] == 'L' ==> ItemSlots(item) == if ';' in item[1..] then 1 else 0
  {
  }

  predicate NoParens(s: string) {
    forall k :: 0 <= k < |s| ==> !IsParen(s[k])
  }

  lemma {:induction false} PrintedNoParens(ts: seq<FieldType>)
    requires forall t :: t in ts ==> ValidType(t) && ParenFree(t)
    ensures NoParens(PrintAll(ts))
  {
    if ts != [] {
      PrintNoParens(ts[0]);
      PrintedNoParens(ts[1..]);
    }
  }

  lemma {:induction false} PrintNoParens(t: FieldType)
    requires ValidType(t) && ParenFree(t)
    ensures NoParens(Print(t))
  {
    match t
    case Base(_) =>
    case Class(name) =>
      forall k | 0 <= k < |name| ensures !IsParen(name[k]) {
        assert name[k] in name;
      }
    case ArrayOf(e) => PrintNoParens(e);
  }

  lemma {:induction false} FirstParenAt(s: string, i: nat)
    requires i <= |s| && NoParens(s[..i]) && (i < |s| ==> IsParen(s[i]))
    ensures FirstParen(s) == i
  {
  }

  /** The text between the outer parentheses is found exactly when it holds no parenthesis itself. */
  lemma {:induction false} ParseExact(params: string, ret: string)
    requires NoParens(ret)
    ensures Parse("(" + params + ")" + ret).args == params <==> NoParens(params)
    ensures NoParens(params) ==> Parse("(" + params + ")" + ret).ret == ret
  {
    var desc := "(" + params + ")" + ret;
    FirstParenAt(desc, 0);
    var tail := desc[1..];
    assert tail == params + ")" + ret;
    assert Split(desc) == [""] + Split(tail);
    var i := FirstParen(tail);
    if NoParens(params) {
      assert tail[..|params|] == params;
      FirstParenAt(tail, |params|);
      assert tail[|params| + 1..] == ret;
      FirstParenAt(ret, |ret|);
    } else {
      var k :| 0 <= k < |params| && IsParen(params[k]);
      assert tail[k] == params[k];
      assert i <= k;
      assert |Parse(desc).args| == i;
    }
  }

  /** Any text: without a parenthesis it has no parameters; otherwise they are what stands between the first
      parenthesis, of either kind, and the next or the end, and the return type what stands behind that up to another
      one. */
  lemma {:induction false} ParseAny(a: string, p: char, b: string, q: char, c: string, rest: string)
    requires NoParens(a) && NoParens(b) && NoParens(c) && IsParen(p) && IsParen(q)
    requires rest == "" || IsParen(rest[0])
    ensures Parse(a) == MethodDescriptor("", "")
    ensures Parse(a + [p] + b) == MethodDescriptor(b, "")
    ensures Parse(a + [p] + (b + [q] + (c + rest))) == MethodDescriptor(b, c)
  {
    hide FirstParen, Parse, NoParens, IsParen, Split;
    OnePiece(a);
    OnePiece(b);
    FirstPiece(a, p, b);
    FirstPiece(a, p, b + [q] + (c + rest));
    FirstPiece(b, q, c + rest);
    LastPieces(c, rest);
    ParsePieces(a);
    ParsePieces(a + [p] + b);
    ParsePieces(a + [p] + (b + [q] + (c + rest)));
  }

  lemma {:induction false} LastPieces(c: string, rest: string)
    requires NoParens(c) && (rest == "" || IsParen(rest[0]))
    ensures Split(c + rest)[0] == c
  {
    hide FirstParen, NoParens, IsParen, Split;
    if rest == "" {
      assert c + rest == c;
      OnePiece(c);
    } else {
      FirstPiece(c, rest[0], rest[1..]);
      assert c + rest == c + [rest[0]] + rest[1..];
    }
  }

  lemma {:induction false} ParsePieces(s: string)
    ensures var pieces := Split(s);
            && (|pieces| == 1 ==> Parse(s) == MethodDescriptor("", ""))
            && (|pieces| == 2 ==> Parse(s) == MethodDescriptor(pieces[1], ""))
            && (|pieces| >= 3 ==> Parse(s) == MethodDescriptor(pieces[1], pieces[2]))
  {
    hide Split;
  }

  lemma {:induction false} OnePiece(s: string)
    requires NoParens(s)
    ensures Split(s) == [s]
  {
    assert s[..|s|] == s;
    FirstParenAt(s, |s|);
  }

  lemma {:induction false} FirstPiece(a: string, p: char, tail: string)
    requires NoParens(a) && IsParen(p)
    ensures Split(a + [p] + tail) == [a] + Split(tail)
  {
    var s := a + [p] + tail;
    assert s[..|a|] == a && s[|a| + 1..] == tail;
    FirstParenAt(s, |a|);
  }

  /** For every method descriptor of section 4.3.3 of the Java Virtual Machine Specification whose class
      names are free of parentheses: the parameters are split as they were printed, and the size is
      the sum of their slots. */
  lemma {:induction false} MethodDescriptorExact(params: seq<FieldType>, ret: string)
    requires forall t :: t in params ==> ValidType(t) && ParenFree(t)
    requires NoParens(ret)
    ensures var desc := "(" + PrintAll(params) + ")" + ret;
            && Parse(desc) == MethodDescriptor(PrintAll(params), ret)
            && Args(Parse(desc).args) == PrintEach(params)
            && ArgsSize(desc) == TotalSlots(params)
  {
    PrintedNoParens(params);
    ParseExact(PrintAll(params), ret);
    ArgsOfPrinted(params);
    SlotsOfPrinted(params);
  }

  function Joined(items: seq<string>): string {
    if items == [] then [] else items[0] + Joined(items[1..])
  }

  /** For any text at all, the parameters are not empty and follow each other from its beginning, and
      what is left over does not begin with a complete parameter. */
  lemma {:induction false} ArgsCover(data: string)
    ensures forall item :: item in Args(data) ==> item != []
    ensures Joined(Args(data)) <= data
    ensures NextLength(data[|Joined(Args(data))|..]).None?
    decreases |data|
  {
    hide NextLength;
    match NextLength(data)
    case None => assert data[0..] == data;
    case Some(n) =>
      ArgsCover(data[n..]);
      PrefixAfter(data, n, Joined(Args(data[n..])));
  }

  lemma {:induction false} PrefixAfter(data: string, n: nat, rest: string)
    requires n <= |data| && rest <= data[n..]
    ensures data[..n] + rest <= data && data[n..][|rest|..] == data[|data[..n] + rest|..]
  {
  }
}
