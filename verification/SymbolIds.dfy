/**
 Printing and parsing canonical symbol IDs (pkg/model/compatibility.go).
 */
module SymbolIds {
  import opened Policies
  import opened Strings

  datatype Receiver = Receiver(typeName: string, pointer: bool)

  datatype ParsedSymbolId = ParsedSymbolId(importPath: string, receiver: Option<Receiver>, name: string)

  datatype ParseResult =
    | Parsed(id: ParsedSymbolId) | EmptyId | UnterminatedReceiver | MalformedMethod | EmptyReceiverType
    | MalformedFunction

  function FunctionId(importPath: string, name: string): string
  {
    importPath + "." + name
  }

  function ReceiverText(receiver: Receiver): string
  {
    if receiver.pointer then "*" + receiver.typeName else receiver.typeName
  }

  function MethodId(importPath: string, receiver: Receiver, name: string): string
  {
    importPath + "." + "(" + ReceiverText(receiver) + ")" + "." + name
  }

  function Print(id: ParsedSymbolId): string
  {
    match id.receiver
    case None => FunctionId(id.importPath, id.name)
    case Some(receiver) => MethodId(id.importPath, receiver, id.name)
  }

  function ParseReceiver(text: string): Receiver
  {
    Receiver(TrimPrefix(text, "*"), HasPrefix(text, "*"))
  }

  /** The branch of `ParseSymbolID` for a method whose receiver opens at `open`. */
  function ParseMethod(symbol: string, open: nat): ParseResult
    requires 0 < open < |symbol|
  {
    var close := Index(symbol[open..], ")");
    if close < 0 then UnterminatedReceiver
    else if close == 0 then MalformedMethod
    else
      var rest := symbol[open + close + 1..];
      if !HasPrefix(rest, ".") || |rest| == 1 then MalformedMethod
      else
        var receiver := ParseReceiver(symbol[open + 1..open + close]);
        if receiver.typeName == "" then EmptyReceiverType
        else Parsed(ParsedSymbolId(symbol[..open - 1], Some(receiver), rest[1..]))
  }

  function ParseFunction(symbol: string): ParseResult
  {
    var i := LastIndex(symbol, ".");
    if i <= 0 || i == |symbol| - 1 then MalformedFunction
    else Parsed(ParsedSymbolId(symbol[..i], None, symbol[i + 1..]))
  }

  /** A receiver opens where the last parenthesis follows a separator. */
  predicate HasReceiver(symbol: string)
  {
    var open := LastIndex(symbol, "(");
    open > 0 && symbol[open - 1] == '.'
  }

  function ParseSymbolId(symbol: string): ParseResult
  {
    if symbol == "" then EmptyId
    else if HasReceiver(symbol) then ParseMethod(symbol, LastIndex(symbol, "("))
    else ParseFunction(symbol)
  }

  // ---------------------------------------------------------------------- print after parse

  lemma ReceiverRoundTrip(text: string)
    ensures ReceiverText(ParseReceiver(text)) == text
  {
  }

  /** Printing what was parsed gives the ID back. */
  lemma PrintAfterParse(symbol: string)
    ensures ParseSymbolId(symbol).Parsed? ==> Print(ParseSymbolId(symbol).id) == symbol
  {
    hide Index, LastIndex;
    LastCharacter(symbol, '(');
    LastCharacter(symbol, '.');
    if ParseSymbolId(symbol).Parsed? {
      if HasReceiver(symbol) {
        PrintAfterMethod(symbol, LastIndex(symbol, "("));
      } else {
        var i := LastIndex(symbol, ".");
        assert symbol == symbol[..i] + [symbol[i]] + symbol[i + 1..];
      }
    }
  }

  lemma PrintAfterMethod(symbol: string, open: nat)
    requires 0 < open < |symbol| && symbol[open] == '(' && symbol[open - 1] == '.'
    requires ParseMethod(symbol, open).Parsed?
    ensures Print(ParseMethod(symbol, open).id) == symbol
  {
    hide Index, ParseReceiver, ReceiverText;
    FirstCharacter(symbol[open..], ')');
    var close := open + Index(symbol[open..], ")");
    ReceiverRoundTrip(symbol[open + 1..close]);
    assert symbol[close] == ')';
    var rest := symbol[close + 1..];
    assert rest[..1] == "." && rest == "." + rest[1..];
    assert symbol == symbol[..open - 1] + "." + "(" + symbol[open + 1..close] + ")" + rest;
  }

  // ---------------------------------------------------------------------- parse after print

  /** A printed function parses back exactly if its name separates it and it does not look like a method. */
  lemma ParseAfterFunction(importPath: string, name: string)
    ensures ParseSymbolId(FunctionId(importPath, name)) == Parsed(ParsedSymbolId(importPath, None, name)) <==>
            && importPath != "" && name != "" && '.' !in name && !HasReceiver(FunctionId(importPath, name))
  {
    hide Index, LastIndex, ParseMethod;
    var s := FunctionId(importPath, name);
    WhatIsParsed(s, LastIndex(s, "("));
    LastCharacterAt(importPath, '.', name);
    LastCharacter(s, '.');
    assert s[..|importPath|] == importPath && s[|importPath| + 1..] == name;
  }

  lemma NoReceiver(importPath: string, name: string)
    requires '(' !in importPath && '(' !in name
    ensures !HasReceiver(FunctionId(importPath, name))
  {
    hide LastIndex;
    LastCharacter(FunctionId(importPath, name), '(');
  }

  /** A printed method parses back exactly if its receiver and name have none of the delimiters. */
  lemma ParseAfterMethod(importPath: string, receiver: Receiver, name: string)
    ensures ParseSymbolId(MethodId(importPath, receiver, name)) ==
            Parsed(ParsedSymbolId(importPath, Some(receiver), name)) <==>
            && name != "" && '(' !in name && IsPlainReceiver(receiver)
  {
    hide LastIndex, MethodId, ParseMethod, ParseFunction, IsPlainReceiver;
    var s, open := MethodId(importPath, receiver, name), |importPath| + 1;
    OpensAt(importPath, receiver, name);
    LastCharacter(s, '(');
    var last := LastIndex(s, "(");
    WhatIsParsed(s, last);
    PlainReceiverMeaning(receiver);
    if last == open {
      ParseMethodAt(importPath, receiver, name);
    }
  }

  lemma PlainReceiverMeaning(receiver: Receiver)
    ensures IsPlainReceiver(receiver) <==>
            && receiver.typeName != "" && '(' !in receiver.typeName && ')' !in receiver.typeName
            && (HasPrefix(receiver.typeName, "*") ==> receiver.pointer)
  {
  }

  lemma OpensAt(importPath: string, receiver: Receiver, name: string)
    ensures var s, open := MethodId(importPath, receiver, name), |importPath| + 1;
            && |s| > open && s[open - 1] == '.' && s[open] == '('
            && (LastIndex(s, "(") == open <==> '(' !in receiver.typeName && '(' !in name)
  {
    hide LastIndex, ReceiverText;
    var after := ReceiverText(receiver) + ")" + "." + name;
    assert MethodId(importPath, receiver, name) == (importPath + ".") + "(" + after;
    LastCharacterAt(importPath + ".", '(', after);
    DelimitersAfter(receiver, name);
  }

  /** The import path of a method ends where its receiver opens, and a function has no receiver. */
  lemma WhatIsParsed(symbol: string, open: int)
    ensures 0 < open < |symbol| && ParseMethod(symbol, open).Parsed? ==>
              |ParseMethod(symbol, open).id.importPath| == open - 1 && ParseMethod(symbol, open).id.receiver.Some?
    ensures ParseFunction(symbol).Parsed? ==> ParseFunction(symbol).id.receiver == None
  {
    hide Index, LastIndex;
  }

  lemma DelimitersAfter(receiver: Receiver, name: string)
    ensures '(' in ReceiverText(receiver) + ")" + "." + name <==> '(' in receiver.typeName || '(' in name
  {
  }

  predicate IsPlainReceiver(receiver: Receiver)
  {
    && receiver.typeName != "" && '(' !in receiver.typeName && ')' !in receiver.typeName
    && (HasPrefix(receiver.typeName, "*") ==> receiver.pointer)
  }

  lemma ParseMethodAt(importPath: string, receiver: Receiver, name: string)
    ensures ParseMethod(MethodId(importPath, receiver, name), |importPath| + 1) ==
            Parsed(ParsedSymbolId(importPath, Some(receiver), name)) <==>
            && name != "" && receiver.typeName != "" && ')' !in receiver.typeName
            && (HasPrefix(receiver.typeName, "*") ==> receiver.pointer)
  {
    hide Index;
    var text := ReceiverText(receiver);
    var s, open := MethodId(importPath, receiver, name), |importPath| + 1;
    var tail := s[open..];
    assert tail == "(" + text + (")" + ("." + name));
    CloseOfReceiver(text, "." + name);
    var close := Index(tail, ")");
    assert s[open + 1..open + close] == text[..close - 1];
    assert s[open + |text| + 2..] == "." + name;
    assert close == |text| + 1 ==> text[..close - 1] == text;
  }

  lemma CloseOfReceiver(text: string, rest: string)
    ensures var close := Index("(" + text + (")" + rest), ")");
            1 <= close <= |text| + 1 && (close == |text| + 1 <==> ')' !in text)
  {
    hide Index;
    var tail := "(" + text + (")" + rest);
    FirstCharacter(tail, ')');
    assert tail[|text| + 1] == ')';
    assert forall k :: 1 <= k <= |text| ==> tail[k] == text[k - 1];
    if ')' in text {
      var k :| 0 <= k < |text| && text[k] == ')';
      assert tail[k + 1] == ')';
    }
  }

  /** IDs of functions and methods never collide, and each determines what it was made of. */
  lemma FormsAreDistinct(importPath: string, name: string, methodPath: string, receiver: Receiver, methodName: string)
    requires importPath != "" && '(' !in importPath && name != "" && '.' !in name && '(' !in name
    requires methodName != "" && '(' !in methodName && IsPlainReceiver(receiver)
    ensures FunctionId(importPath, name) != MethodId(methodPath, receiver, methodName)
  {
    hide ParseSymbolId, FunctionId, MethodId, HasReceiver, IsPlainReceiver;
    NoReceiver(importPath, name);
    ParseAfterFunction(importPath, name);
    ParseAfterMethod(methodPath, receiver, methodName);
  }

  // ---------------------------------------------------------------------------------- format

  /** A function is its package and name, a method has its receiver in parentheses between them. */
  lemma Formats(importPath: string, typeName: string, name: string)
    ensures FunctionId(importPath, name) == importPath + "." + name
    ensures MethodId(importPath, Receiver(typeName, false), name) == importPath + ".(" + typeName + ")." + name
    ensures MethodId(importPath, Receiver(typeName, true), name) == importPath + ".(*" + typeName + ")." + name
  {
  }
}
