/**
The argument-splitting loop of `get_arg_name` in gen_print.py: from the text of a call, starting at its opening
parenthesis, the list of its arguments as written.
*/
module ArgSplitter {

  // ----- Blanks -----

  /** The characters that Python's str.strip removes. */
  predicate IsSpace(c: char) {
    var n := c as int;
    || 9 <= n <= 13 || 28 <= n <= 32 || n == 0x85 || n == 0xa0 || n == 0x1680
    || 0x2000 <= n <= 0x200a || n == 0x2028 || n == 0x2029 || n == 0x202f || n == 0x205f || n == 0x3000
  }

  /** The white space of the Unicode standard, and the four separators of ASCII. */
  const WHITE_SPACE := [
    0x9, 0xa, 0xb, 0xc, 0xd, 0x1c, 0x1d, 0x1e, 0x1f, 0x20, 0x85, 0xa0, 0x1680, 0x2000, 0x2001, 0x2002, 0x2003, 0x2004,
    0x2005, 0x2006, 0x2007, 0x2008, 0x2009, 0x200a, 0x2028, 0x2029, 0x202f, 0x205f, 0x3000]

  lemma IsSpaceExactly(c: char)
    ensures IsSpace(c) <==> c as int in WHITE_SPACE
  {
  }

  function StripLeft(text: string): string
    decreases |text|
  {
    if text != [] && IsSpace(text[0]) then StripLeft(text[1..]) else text
  }

  function StripRight(text: string): string
    decreases |text|
  {
    if text != [] && IsSpace(text[|text| - 1]) then StripRight(text[..|text| - 1]) else text
  }

  function Strip(text: string): string {
    StripRight(StripLeft(text))
  }

  predicate Trimmed(text: string) {
    text != [] ==> !IsSpace(text[0]) && !IsSpace(text[|text| - 1])
  }

  lemma {:induction false} StripLeftTrims(text: string)
    ensures StripLeft(text) != [] ==> !IsSpace(StripLeft(text)[0])
    decreases |text|
  {
    if text != [] && IsSpace(text[0]) {
      StripLeftTrims(text[1..]);
    }
  }

  lemma {:induction false} StripRightTrims(text: string)
    ensures StripRight(text) <= text
    ensures StripRight(text) != [] ==> !IsSpace(StripRight(text)[|StripRight(text)| - 1])
    decreases |text|
  {
    if text != [] && IsSpace(text[|text| - 1]) {
      StripRightTrims(text[..|text| - 1]);
    }
  }

  lemma StripTrims(text: string)
    ensures Trimmed(Strip(text))
  {
    StripLeftTrims(text);
    StripRightTrims(StripLeft(text));
  }

  /** A visible character at the end stays there. */
  lemma {:induction false} StripLeftOfVisible(text: string)
    ensures StripLeft(text + "x") == StripLeft(text) + "x"
    decreases |text|
  {
    if text != [] && IsSpace(text[0]) {
      assert (text + "x")[1..] == text[1..] + "x";
      StripLeftOfVisible(text[1..]);
    }
  }

  lemma VisibleTailShows(text: string)
    ensures Strip(text + "x") != Strip(text)
  {
    StripLeftOfVisible(text);
    StripRightTrims(StripLeft(text));
    assert |Strip(text + "x")| == |StripLeft(text)| + 1;
  }

  // ----- The loop -----

  function AppendLast(args: seq<string>, text: string): seq<string>
    requires args != []
  {
    args[..|args| - 1] + [args[|args| - 1] + text]
  }

  /** The argument list when the loop ends, before the entries are stripped. */
  function Scan(text: string, nest: int, args: seq<string>): (list: seq<string>)
    requires args != []
    ensures |list| >= |args|
    decreases |text|
  {
    if text == [] then args
    else
      var c, rest := text[0], text[1..];
      if c == '(' then
        if nest + 1 == 0 then Scan(rest, 0, args) else Scan(rest, nest + 1, AppendLast(args, [c]))
      else if c == ')' then
        if nest - 1 < 0 then args else Scan(rest, nest - 1, AppendLast(args, [c]))
      else if c == ',' && nest == 0 then Scan(rest, nest, args + [""])
      else Scan(rest, nest, AppendLast(args, [c]))
  }

  function StripAll(args: seq<string>): (stripped: seq<string>)
    ensures |stripped| == |args|
    ensures forall i :: 0 <= i < |args| ==> stripped[i] == Strip(args[i])
    decreases |args|
  {
    if args == [] then [] else StripAll(args[..|args| - 1]) + [Strip(args[|args| - 1])]
  }

  function Split(text: string): seq<string> {
    StripAll(Scan(text, -1, [""]))
  }

  /** The loop as written, with its index into the argument list. */
  method SplitArgs(text: string) returns (args: seq<string>)
    ensures args == Split(text)
  {
    var nestLevel, argIx := -1, 0;
    args := [""];
    var ix := 0;
    while ix < |text|
      invariant 0 <= ix <= |text| && argIx == |args| - 1
      invariant args != []
      invariant Scan(text[ix..], nestLevel, args) == Scan(text, -1, [""])
    {
      var c := text[ix];
      assert text[ix..][0] == c && text[ix..][1..] == text[ix + 1..];
      ix := ix + 1;
      if c == '(' {
        nestLevel := nestLevel + 1;
        if nestLevel == 0 {
          continue;
        }
      } else if c == ')' {
        nestLevel := nestLevel - 1;
        if nestLevel < 0 {
          break;
        }
      }
      if c == ',' && nestLevel == 0 {
        argIx := argIx + 1;
        args := args + [""];
        continue;
      }
      ghost var before := args;
      args := args[argIx := args[argIx] + [c]];
      assert args == AppendLast(before, [c]);
    }
    assert args == Scan(text, -1, [""]);
    ghost var raw := args;
    ix := 0;
    while ix < |args|
      invariant 0 <= ix <= |args| == |raw|
      invariant forall k :: 0 <= k < |args| ==> args[k] == if k < ix then Strip(raw[k]) else raw[k]
    {
      args := args[ix := Strip(args[ix])];
      ix := ix + 1;
    }
    assert args == StripAll(raw);
  }

  // ----- Splitting undoes joining -----

  /** The parenthesis depth after the text, starting at depth d; -1 if a parenthesis closes at depth 0 or a comma
      stands at depth 0. */
  function Depth(text: string, d: nat): int
    decreases |text|
  {
    if text == [] then d
    else if text[0] == '(' then Depth(text[1..], d + 1)
    else if text[0] == ')' then if d == 0 then -1 else Depth(text[1..], d - 1)
    else if text[0] == ',' && d == 0 then -1
    else Depth(text[1..], d)
  }

  /** An argument as a program would show it: trimmed, its parentheses balanced, its commas inside them. */
  predicate Good(arg: string) {
    Trimmed(arg) && Depth(arg, 0) == 0
  }

  predicate AllGood(args: seq<string>) {
    forall i :: 0 <= i < |args| ==> Good(args[i])
  }

  /** ", ".join(args) */
  function Join(args: seq<string>): string
    requires args != []
    decreases |args|
  {
    if |args| == 1 then args[0] else args[0] + ", " + Join(args[1..])
  }

  /** The text of a call from its opening parenthesis on. */
  function CallText(args: seq<string>, tail: string): string
    requires args != []
  {
    "(" + Join(args) + ")" + tail
  }

  lemma AppendTwice(args: seq<string>, a: string, b: string)
    requires args != []
    ensures AppendLast(AppendLast(args, a), b) == AppendLast(args, a + b)
  {
    var last := args[|args| - 1];
    assert (last + a) + b == last + (a + b);
    assert AppendLast(args, a)[..|args| - 1] == args[..|args| - 1];
  }

  lemma {:induction false} ScanBalanced(text: string, d: nat, rest: string, args: seq<string>)
    requires args != [] && Depth(text, d) == 0
    ensures Scan(text + rest, d, args) == Scan(rest, 0, AppendLast(args, text))
    decreases |text|
  {
    if text == [] {
      assert text + rest == rest;
      assert AppendLast(args, []) == args by { assert args[|args| - 1] + [] == args[|args| - 1]; }
    } else {
      var c := text[0];
      assert (text + rest)[1..] == text[1..] + rest;
      AppendTwice(args, [c], text[1..]);
      assert [c] + text[1..] == text;
      ScanBalanced(text[1..], if c == '(' then d + 1 else if c == ')' then d - 1 else d, rest, AppendLast(args, [c]));
    }
  }

  /** The entries before stripping: all but the first begin with the blank after the comma. */
  function Spaced(args: seq<string>): seq<string>
    decreases |args|
  {
    if args == [] then [] else [" " + args[0]] + Spaced(args[1..])
  }

  lemma {:induction false} ScanJoined(finished: seq<string>, last: string, args: seq<string>, tail: string)
    requires args != [] && AllGood(args)
    ensures Scan(Join(args) + ")" + tail, 0, finished + [last]) == finished + [last + args[0]] + Spaced(args[1..])
    decreases |args|
  {
    var arg := args[0];
    var list := finished + [last];
    assert AppendLast(list, arg) == finished + [last + arg];
    if |args| == 1 {
      ScanBalanced(arg, 0, ")" + tail, list);
      assert Join(args) + ")" + tail == arg + (")" + tail);
      assert finished + [last + arg] + [] == finished + [last + arg];
    } else {
      var rest := Join(args[1..]) + ")" + tail;
      var list' := finished + [last + arg];
      assert Join(args) + ")" + tail == arg + (", " + rest);
      ScanBalanced(arg, 0, ", " + rest, list);
      assert (", " + rest)[1..] == " " + rest;
      assert (" " + rest)[1..] == rest;
      assert AppendLast(list' + [""], " ") == list' + [" "] by { assert "" + " " == " "; }
      ScanJoined(list', " ", args[1..], tail);
      assert Scan(", " + rest, 0, list') == Scan(rest, 0, list' + [" "]);
      assert list' + [" " + args[1]] + Spaced(args[1..][1..]) == list' + Spaced(args[1..]);
    }
  }

  lemma StripOfTrimmed(text: string)
    requires Trimmed(text)
    ensures Strip(text) == text && Strip(" " + text) == text
  {
    assert (" " + text)[1..] == text;
  }

  lemma {:induction false} StripSpaced(args: seq<string>)
    requires AllGood(args)
    ensures |Spaced(args)| == |args| && forall i :: 0 <= i < |args| ==> Strip(Spaced(args)[i]) == args[i]
    decreases |args|
  {
    if args != [] {
      StripSpaced(args[1..]);
      StripOfTrimmed(args[0]);
    }
  }

  /** Round trip: splitting the text of a call gives back its arguments, whatever follows the closing parenthesis. */
  lemma SplitUndoesJoin(args: seq<string>, tail: string)
    requires args != [] && AllGood(args)
    ensures Split(CallText(args, tail)) == args
  {
    var text := CallText(args, tail);
    assert text[1..] == Join(args) + ")" + tail;
    assert [] + [""] == [""] && "" + args[0] == args[0];
    ScanJoined([], "", args, tail);
    var raw := [args[0]] + Spaced(args[1..]);
    assert [] + [args[0]] + Spaced(args[1..]) == raw;
    assert Scan(text, -1, [""]) == raw;
    StripSpaced(args[1..]);
    StripOfTrimmed(args[0]);
    assert StripAll(raw) == args;
  }

  // ----- and only of such arguments -----

  /** The loop meets the closing parenthesis of the call. */
  predicate Closes(text: string, nest: int)
    decreases |text|
  {
    text != [] &&
    if text[0] == '(' then Closes(text[1..], nest + 1)
    else if text[0] == ')' then nest - 1 < 0 || Closes(text[1..], nest - 1)
    else Closes(text[1..], nest)
  }

  predicate DepthsAre(args: seq<string>, last: nat) {
    forall i :: 0 <= i < |args| ==> Depth(args[i], 0) == if i == |args| - 1 then last else 0
  }

  lemma {:induction false} DepthAppends(text: string, d: nat, c: char)
    requires Depth(text, d) >= 0
    ensures Depth(text + [c], d) == Depth([c], Depth(text, d))
    decreases |text|
  {
    if text == [] {
      assert text + [c] == [c];
    } else {
      assert (text + [c])[1..] == text[1..] + [c];
      DepthAppends(text[1..], if text[0] == '(' then d + 1 else if text[0] == ')' then d - 1 else d, c);
    }
  }

  lemma {:induction false} ScanGivesBalanced(text: string, nest: nat, args: seq<string>)
    requires args != [] && DepthsAre(args, nest) && Closes(text, nest)
    ensures DepthsAre(Scan(text, nest, args), 0)
    decreases |text|
  {
    var c := text[0];
    if c == ')' && nest == 0 {
    } else if c == ',' && nest == 0 {
      assert Depth("", 0) == 0;
      ScanGivesBalanced(text[1..], nest, args + [""]);
    } else {
      var nest' := if c == '(' then nest + 1 else if c == ')' then nest - 1 else nest;
      DepthAppends(args[|args| - 1], 0, c);
      assert [c][1..] == [];
      assert DepthsAre(AppendLast(args, [c]), nest');
      ScanGivesBalanced(text[1..], nest', AppendLast(args, [c]));
    }
  }

  lemma {:induction false} StripLeftKeepsDepth(text: string)
    ensures Depth(StripLeft(text), 0) == Depth(text, 0)
    decreases |text|
  {
    if text != [] && IsSpace(text[0]) {
      StripLeftKeepsDepth(text[1..]);
    }
  }

  lemma {:induction false} StripRightKeepsDepth(text: string)
    requires Depth(text, 0) >= 0
    ensures Depth(StripRight(text), 0) == Depth(text, 0)
    decreases |text|
  {
    if text != [] && IsSpace(text[|text| - 1]) {
      var init, c := text[..|text| - 1], text[|text| - 1];
      assert init + [c] == text;
      PrefixDepth(init, 0, c);
      DepthAppends(init, 0, c);
      assert [c][1..] == [];
      StripRightKeepsDepth(init);
    }
  }

  lemma {:induction false} PrefixDepth(text: string, d: nat, c: char)
    requires Depth(text + [c], d) >= 0
    ensures Depth(text, d) >= 0
    decreases |text|
  {
    if text != [] {
      assert (text + [c])[1..] == text[1..] + [c];
      PrefixDepth(text[1..], if text[0] == '(' then d + 1 else if text[0] == ')' then d - 1 else d, c);
    }
  }

  /** If the call is never closed, one more character changes the last entry. */
  lemma {:induction false} UnclosedTail(text: string, nest: int, args: seq<string>)
    requires args != [] && !Closes(text, nest)
    ensures Scan(text + "x", nest, args) == AppendLast(Scan(text, nest, args), "x")
    decreases |text|
  {
    if text == [] {
      assert text + "x" == "x" && "x"[1..] == [];
    } else {
      var c := text[0];
      assert (text + "x")[1..] == text[1..] + "x";
      if c == '(' {
        UnclosedTail(text[1..], nest + 1, if nest + 1 == 0 then args else AppendLast(args, [c]));
      } else if c == ')' {
        UnclosedTail(text[1..], nest - 1, AppendLast(args, [c]));
      } else if c == ',' && nest == 0 {
        UnclosedTail(text[1..], nest, args + [""]);
      } else {
        UnclosedTail(text[1..], nest, AppendLast(args, [c]));
      }
    }
  }

  lemma LastEntryVaries(raw: seq<string>)
    requires raw != []
    ensures StripAll(AppendLast(raw, "x")) != StripAll(raw)
  {
    var n := |raw| - 1;
    VisibleTailShows(raw[n]);
    assert StripAll(AppendLast(raw, "x"))[n] == Strip(raw[n] + "x");
    assert StripAll(raw)[n] == Strip(raw[n]);
  }

  lemma UnclosedCallVaries(text: string)
    requires !Closes(text, -1)
    ensures Split(text + "x") != Split(text)
  {
    UnclosedTail(text, -1, [""]);
    LastEntryVaries(Scan(text, -1, [""]));
  }

  /** Whatever a closed call is split into, the entries are trimmed and balanced, with no comma outside parentheses. */
  lemma SplitIsGood(text: string)
    requires text != [] && text[0] == '(' && Closes(text[1..], 0)
    ensures AllGood(Split(text))
  {
    var raw := Scan(text, -1, [""]);
    assert DepthsAre([""], 0);
    ScanGivesBalanced(text[1..], 0, [""]);
    forall i | 0 <= i < |raw|
      ensures Good(Strip(raw[i]))
    {
      StripTrims(raw[i]);
      StripLeftKeepsDepth(raw[i]);
      StripRightKeepsDepth(StripLeft(raw[i]));
    }
  }

  /** Splitting gives back the joined arguments, whatever follows the call, exactly when every argument is trimmed and
      balanced and has no comma outside parentheses; a comma inside quotes is not an exception. */
  lemma SplitUndoesJoinExactly(args: seq<string>)
    requires args != []
    ensures (forall tail :: Split(CallText(args, tail)) == args) <==> AllGood(args)
  {
    if AllGood(args) {
      forall tail
        ensures Split(CallText(args, tail)) == args
      {
        SplitUndoesJoin(args, tail);
      }
    }
    if forall tail :: Split(CallText(args, tail)) == args {
      OnlyGoodComeBack(args);
    }
  }

  lemma OnlyGoodComeBack(args: seq<string>)
    requires args != [] && Split(CallText(args, "")) == args && Split(CallText(args, "x")) == args
    ensures AllGood(args)
  {
    var text := CallText(args, "");
    assert CallText(args, "x") == text + "x";
    if Closes(text[1..], 0) {
      SplitIsGood(text);
    } else {
      assert text[0] == '(';
      UnclosedCallVaries(text);
    }
  }

  /** A comma in a string literal splits the argument that holds it. */
  lemma QuotedCommaSplits()
    ensures !AllGood(["\"a,b\""])
  {
    var arg := "\"a,b\"";
    assert arg[1..] == "a,b\"" && arg[1..][1..] == ",b\"";
    assert Depth(arg, 0) == Depth(arg[1..], 0) == Depth(arg[1..][1..], 0) == -1;
    assert !Good(["\"a,b\""][0]);
  }
}
