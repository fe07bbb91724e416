/**
The token loop of `parse_command_string` in gen_cmd.py: the words of a command line, as a shell splits them, become an
ordered dictionary from parameter names to values.
*/
module CommandParse {

  import opened Options

  /** A dictionary value: a bare string for a name given once, a list for a name given several times. */
  datatype Entry = Bare(value: string) | Several(values: seq<string>)

  /** An ordered dictionary. */
  datatype Dictionary = Dictionary(keys: seq<string>, entries: map<string, Entry>)

  datatype Pair = Pair(key: string, value: string)

  const COMMAND := "command"
  const POSITIONAL := "positional"

  function AsList(entry: Entry): seq<string> {
    match entry
    case Bare(value) => [value]
    case Several(values) => values
  }

  function Insert(d: Dictionary, p: Pair): Dictionary {
    if p.key in d.entries then d.(entries := d.entries[p.key := Several(AsList(d.entries[p.key]) + [p.value])])
    else Dictionary(d.keys + [p.key], d.entries[p.key := Bare(p.value)])
  }

  /** The dictionary after inserting the pairs in order. */
  function Collect(pairs: seq<Pair>): Dictionary
    decreases |pairs|
  {
    if pairs == [] then Dictionary([], map[]) else Insert(Collect(pairs[..|pairs| - 1]), pairs[|pairs| - 1])
  }

  // ----- Reading tokens -----

  /** lstrip("-") */
  function StripDashes(text: string): string
    decreases |text|
  {
    if text != [] && text[0] == '-' then StripDashes(text[1..]) else text
  }

  function EqualSigns(text: string): nat
    decreases |text|
  {
    if text == [] then 0 else (if text[0] == '=' then 1 else 0) + EqualSigns(text[1..])
  }

  function BeforeEqual(text: string): string
    decreases |text|
  {
    if text == [] || text[0] == '=' then [] else [text[0]] + BeforeEqual(text[1..])
  }

  function AfterEqual(text: string): string
    decreases |text|
  {
    if text == [] then [] else if text[0] == '=' then text[1..] else AfterEqual(text[1..])
  }

  function Prepend(p: Pair, rest: Option<seq<Pair>>): Option<seq<Pair>> {
    if rest.Some? then Some([p] + rest.value) else None
  }

  /** The pairs that the tokens after the command stand for; None is the exception raised by unpacking the parts of a
      long parameter that has no "=" or more than one. */
  function ReadTokens(tokens: seq<string>): Option<seq<Pair>>
    decreases |tokens|
  {
    if tokens == [] then Some([])
    else if "--" <= tokens[0] then
      if EqualSigns(tokens[0]) == 1 then
        Prepend(Pair(StripDashes(BeforeEqual(tokens[0])), AfterEqual(tokens[0])), ReadTokens(tokens[1..]))
      else None
    else if "-" <= tokens[0] then
      if |tokens| > 1 then Prepend(Pair(StripDashes(tokens[0]), tokens[1]), ReadTokens(tokens[2..]))
      else Some([Pair(StripDashes(tokens[0]), "")])
    else Prepend(Pair(POSITIONAL, tokens[0]), ReadTokens(tokens[1..]))
  }

  /** The token loop.  Returns None where the source raises an exception. */
  method ParseTokens(tokens: seq<string>) returns (result: Option<Dictionary>)
    requires tokens != []
    ensures result == match ReadTokens(tokens[1..])
                      case None => None
                      case Some(pairs) => Some(Collect([Pair("command", tokens[0])] + pairs))
  {
    var dictionary := Insert(Dictionary([], map[]), Pair(COMMAND, tokens[0]));
    ghost var read := [Pair(COMMAND, tokens[0])];
    assert read[..0] == [];
    ghost var goal := PrependAll(read, ReadTokens(tokens[1..]));
    var ix := 1;
    while ix < |tokens|
      invariant 1 <= ix <= |tokens| + 1 && dictionary == Collect(read)
      invariant goal == PrependAll(read, ReadTokens(RestFrom(tokens, ix)))
    {
      ghost var rest := tokens[ix..];
      assert rest[0] == tokens[ix] && rest[1..] == tokens[ix + 1..];
      var key, value;
      if "--" <= tokens[ix] {
        if EqualSigns(tokens[ix]) != 1 {
          return None;
        }
        key, value := StripDashes(BeforeEqual(tokens[ix])), AfterEqual(tokens[ix]);
      } else if "-" <= tokens[ix] {
        key := StripDashes(tokens[ix]);
        ix := ix + 1;
        if ix < |tokens| {
          value := tokens[ix];
          assert rest[2..] == tokens[ix + 1..] && rest[1] == tokens[ix];
        } else {
          value := "";
        }
      } else {
        key, value := POSITIONAL, tokens[ix];
      }
      ix := ix + 1;
      assert [Pair(key, value)] + [] == [Pair(key, value)];
      assert ReadTokens(rest) == Prepend(Pair(key, value), ReadTokens(RestFrom(tokens, ix)));
      OneMoreRead(read, Pair(key, value), ReadTokens(RestFrom(tokens, ix)));
      dictionary := Insert(dictionary, Pair(key, value));
      assert (read + [Pair(key, value)])[..|read|] == read;
      read := read + [Pair(key, value)];
    }
    assert RestFrom(tokens, ix) == [] && read + [] == read;
    result := Some(dictionary);
  }

  /** The tokens from index ix on; a short parameter without a value leaves the index one past the end. */
  function RestFrom(tokens: seq<string>, ix: nat): seq<string> {
    if ix <= |tokens| then tokens[ix..] else []
  }

  function PrependAll(read: seq<Pair>, rest: Option<seq<Pair>>): Option<seq<Pair>> {
    if rest.Some? then Some(read + rest.value) else None
  }

  lemma OneMoreRead(read: seq<Pair>, p: Pair, rest: Option<seq<Pair>>)
    ensures PrependAll(read, Prepend(p, rest)) == PrependAll(read + [p], rest)
  {
    if rest.Some? {
      assert read + ([p] + rest.value) == (read + [p]) + rest.value;
    }
  }

  // ----- What the dictionary holds -----

  /** The values given for a name, in order of occurrence. */
  function ValuesOf(key: string, pairs: seq<Pair>): seq<string>
    decreases |pairs|
  {
    if pairs == [] then []
    else
      var n := |pairs| - 1;
      ValuesOf(key, pairs[..n]) + if pairs[n].key == key then [pairs[n].value] else []
  }

  /** The names in order of first occurrence. */
  function FirstKeys(pairs: seq<Pair>): seq<string>
    decreases |pairs|
  {
    if pairs == [] then []
    else
      var n := |pairs| - 1;
      FirstKeys(pairs[..n]) + if ValuesOf(pairs[n].key, pairs[..n]) == [] then [pairs[n].key] else []
  }

  /** Each name maps to exactly its values, in order: a bare string if there is one, a list if there are several.  No
      name is lost, none is invented, and names keep the order of their first occurrence. */
  lemma {:induction false} CollectKeepsAllValues(pairs: seq<Pair>, key: string)
    ensures key in Collect(pairs).entries <==> ValuesOf(key, pairs) != []
    ensures key in Collect(pairs).entries ==>
              var values := ValuesOf(key, pairs);
              Collect(pairs).entries[key] == if |values| == 1 then Bare(values[0]) else Several(values)
    ensures Collect(pairs).keys == FirstKeys(pairs)
    decreases |pairs|
  {
    if pairs != [] {
      var n := |pairs| - 1;
      CollectKeepsAllValues(pairs[..n], key);
      CollectKeepsAllValues(pairs[..n], pairs[n].key);
    }
  }

  // ----- Rendering and reading back -----

  /** A parameter as it is written on a command line. */
  datatype Item = Long(name: string, value: string) | Short(name: string, value: string) | Positional(value: string)

  function RenderItem(item: Item): seq<string> {
    match item
    case Long(name, value) => ["--" + name + "=" + value]
    case Short(name, value) => ["-" + name, value]
    case Positional(value) => [value]
  }

  function Render(items: seq<Item>): seq<string>
    decreases |items|
  {
    if items == [] then [] else RenderItem(items[0]) + Render(items[1..])
  }

  function PairOf(item: Item): Pair {
    match item
    case Long(name, value) => Pair(name, value)
    case Short(name, value) => Pair(name, value)
    case Positional(value) => Pair("positional", value)
  }

  function PairsOf(items: seq<Item>): seq<Pair>
    decreases |items|
  {
    if items == [] then [] else [PairOf(items[0])] + PairsOf(items[1..])
  }

  /** The conventions the source expects: no dash begins a name or a positional value, and a long parameter has no other
      "=" than the one after its name. */
  predicate WellFormed(item: Item) {
    match item
    case Long(name, value) => !("-" <= name) && '=' !in name && '=' !in value
    case Short(name, _) => !("-" <= name)
    case Positional(value) => !("-" <= value)
  }

  lemma {:induction false} LongParts(name: string, value: string)
    ensures EqualSigns(name + "=" + value) == EqualSigns(name) + 1 + EqualSigns(value)
    ensures '=' !in name ==> BeforeEqual(name + "=" + value) == name && AfterEqual(name + "=" + value) == value
    decreases |name|
  {
    if name == [] {
      assert name + "=" + value == "=" + value;
      assert ("=" + value)[1..] == value;
    } else {
      assert (name + "=" + value)[1..] == name[1..] + "=" + value;
      LongParts(name[1..], value);
      assert name == [name[0]] + name[1..];
    }
  }

  lemma {:induction false} NoEqualSigns(text: string)
    ensures EqualSigns(text) == 0 <==> '=' !in text
    decreases |text|
  {
    if text != [] {
      NoEqualSigns(text[1..]);
      assert text == [text[0]] + text[1..];
    }
  }

  lemma {:induction false} StripDashesStrips(text: string)
    ensures !("-" <= StripDashes(text))
    ensures !("-" <= text) ==> StripDashes(text) == text
    decreases |text|
  {
    if text != [] && text[0] == '-' {
      StripDashesStrips(text[1..]);
    }
  }

  /** How a long parameter reads. */
  lemma LongReads(name: string, value: string)
    ensures var token := "--" + name + "=" + value;
            && (EqualSigns(token) == 1 <==> '=' !in name && '=' !in value)
            && ('=' !in name ==> StripDashes(BeforeEqual(token)) == StripDashes(name) && AfterEqual(token) == value)
  {
    LongParts("--" + name, value);
    NoEqualSigns(name);
    NoEqualSigns(value);
    assert ("--" + name)[1..] == "-" + name && ("-" + name)[1..] == name;
  }

  /** A well-formed item reads back as its pair, whatever follows it. */
  lemma ItemReads(item: Item, rest: seq<string>)
    requires WellFormed(item)
    ensures ReadTokens(RenderItem(item) + rest) == Prepend(PairOf(item), ReadTokens(rest))
  {
    var tokens := RenderItem(item) + rest;
    match item
    case Long(name, value) =>
      LongReads(name, value);
      StripDashesStrips(name);
      assert tokens[1..] == rest;
    case Short(name, value) =>
      assert tokens[0] == "-" + name && (name != [] ==> tokens[0][1] == name[0]);
      assert ("-" + name)[1..] == name;
      StripDashesStrips(name);
      assert tokens[2..] == rest;
    case Positional(value) =>
      assert tokens[1..] == rest;
  }

  /** An item reads back exactly when it is well formed. */
  lemma ItemReadsExactly(item: Item)
    ensures ReadTokens(RenderItem(item)) == Some([PairOf(item)]) <==> WellFormed(item)
  {
    var tokens := RenderItem(item);
    assert tokens + [] == tokens && [PairOf(item)] + [] == [PairOf(item)];
    if WellFormed(item) {
      ItemReads(item, []);
    } else {
      match item
      case Long(name, value) =>
        LongReads(name, value);
        StripDashesStrips(name);
        var token := "--" + name + "=" + value;
        assert tokens[1..] == [];
        if EqualSigns(token) == 1 {
          assert [Pair(StripDashes(name), value)] + [] == [Pair(StripDashes(name), value)];
          assert StripDashes(name) != name;
          assert ReadTokens(tokens) == Some([Pair(StripDashes(name), value)]);
        }
      case Short(name, value) =>
        assert tokens[0] == "-" + name && tokens[0][1] == name[0];
        assert "--" <= tokens[0];
        StripDashesStrips(BeforeEqual(tokens[0]));
      case Positional(value) =>
        assert tokens[1..] == [];
        StripDashesStrips(value);
        ShorterAfterEqual(value);
        var read := Pair(StripDashes(BeforeEqual(value)), AfterEqual(value));
        assert [read] + [] == [read] && read.value != value;
    }
  }

  lemma {:induction false} ShorterAfterEqual(text: string)
    ensures text != [] ==> |AfterEqual(text)| < |text|
    decreases |text|
  {
    if text != [] && text[0] != '=' {
      ShorterAfterEqual(text[1..]);
    }
  }

  lemma {:induction false} ItemsRead(items: seq<Item>)
    requires forall i :: 0 <= i < |items| ==> WellFormed(items[i])
    ensures ReadTokens(Render(items)) == Some(PairsOf(items))
    decreases |items|
  {
    if items != [] {
      ItemReads(items[0], Render(items[1..]));
      ItemsRead(items[1..]);
    }
  }

  lemma LastShortReads(name: string)
    requires !("-" <= name)
    ensures ReadTokens(["-" + name]) == Some([Pair(name, "")])
  {
    var token := "-" + name;
    assert token[0] == '-' && (name != "" ==> token[1] == name[0]) && token[1..] == name;
    StripDashesStrips(name);
  }

  /** A short parameter at the very end has the empty value. */
  lemma {:induction false} TrailingShortReads(items: seq<Item>, name: string)
    requires forall i :: 0 <= i < |items| ==> WellFormed(items[i])
    requires !("-" <= name)
    ensures ReadTokens(Render(items) + ["-" + name]) == Some(PairsOf(items) + [Pair(name, "")])
    decreases |items|
  {
    var last := ["-" + name];
    if items == [] {
      LastShortReads(name);
      assert Render(items) + last == last && [] + [Pair(name, "")] == [Pair(name, "")];
    } else {
      var rest := Render(items[1..]) + last;
      assert Render(items) + last == RenderItem(items[0]) + rest;
      ItemReads(items[0], rest);
      TrailingShortReads(items[1..], name);
      assert [PairOf(items[0])] + (PairsOf(items[1..]) + [Pair(name, "")]) == PairsOf(items) + [Pair(name, "")];
    }
  }

  /** The text has an equals sign at i and no other. */
  predicate OnlyEqualAt(text: string, i: nat) {
    i < |text| && text[i] == '=' && '=' !in text[..i] && '=' !in text[i + 1..]
  }

  ghost predicate OneEqual(text: string) {
    exists i: nat :: OnlyEqualAt(text, i)
  }

  lemma EqualAtStart(text: string)
    requires text != [] && text[0] == '='
    ensures OneEqual(text) <==> '=' !in text[1..]
  {
    forall i: nat | 0 < i < |text|
      ensures !OnlyEqualAt(text, i)
    {
      assert text[..i][0] == '=';
    }
    assert OnlyEqualAt(text, 0) <==> '=' !in text[1..];
  }

  lemma EqualShifts(text: string, i: nat)
    requires text != [] && text[0] != '=' && i < |text| - 1
    ensures OnlyEqualAt(text, i + 1) <==> OnlyEqualAt(text[1..], i)
  {
    assert text[..i + 1] == [text[0]] + text[1..][..i];
    assert text[i + 2..] == text[1..][i + 1..];
  }

  lemma EqualLater(text: string)
    requires text != [] && text[0] != '='
    ensures OneEqual(text) <==> OneEqual(text[1..])
  {
    if OneEqual(text) {
      var i: nat :| OnlyEqualAt(text, i);
      EqualShifts(text, i - 1);
    }
    if OneEqual(text[1..]) {
      var i: nat :| OnlyEqualAt(text[1..], i);
      EqualShifts(text, i);
    }
  }

  lemma {:induction false} OneEqualExactly(text: string)
    ensures EqualSigns(text) == 1 <==> OneEqual(text)
    decreases |text|
  {
    if text != [] {
      if text[0] == '=' {
        EqualAtStart(text);
        NoEqualSigns(text[1..]);
      } else {
        EqualLater(text);
        OneEqualExactly(text[1..]);
      }
    }
  }

  /** A token with two dashes makes the parsing fail exactly when it has no equals sign or more than one, or the rest
      fails. */
  lemma LongFailsExactly(token: string, rest: seq<string>)
    requires "--" <= token
    ensures ReadTokens([token] + rest).None? <==>
            !OneEqual(token) || ReadTokens(rest).None?
  {
    OneEqualExactly(token);
    assert ([token] + rest)[1..] == rest;
  }

  /** Round trip: a rendered command line parses into the dictionary in which every name has exactly the values it was
      given, in order of occurrence, and nothing else. */
  lemma RenderedParses(command: string, items: seq<Item>, key: string)
    requires forall i :: 0 <= i < |items| ==> WellFormed(items[i])
    ensures var pairs := [Pair("command", command)] + PairsOf(items);
            var dictionary := Collect(pairs);
            && ReadTokens(Render(items)) == Some(PairsOf(items))
            && (key in dictionary.entries <==> ValuesOf(key, pairs) != [])
            && (key in dictionary.entries ==>
                  var values := ValuesOf(key, pairs);
                  dictionary.entries[key] == if |values| == 1 then Bare(values[0]) else Several(values))
            && dictionary.keys == FirstKeys(pairs)
  {
    ItemsRead(items);
    CollectKeepsAllValues([Pair(COMMAND, command)] + PairsOf(items), key);
  }

  lemma {:induction false} ValuesOfAppends(key: string, a: seq<Pair>, b: seq<Pair>)
    ensures ValuesOf(key, a + b) == ValuesOf(key, a) + ValuesOf(key, b)
    decreases |b|
  {
    if b == [] {
      assert a + b == a;
    } else {
      var n := |b| - 1;
      assert (a + b)[..|a + b| - 1] == a + b[..n];
      ValuesOfAppends(key, a, b[..n]);
    }
  }

  lemma {:induction false} NoSuchKey(key: string, pairs: seq<Pair>)
    ensures ValuesOf(key, pairs) == [] <==> forall i :: 0 <= i < |pairs| ==> pairs[i].key != key
    decreases |pairs|
  {
    if pairs != [] {
      NoSuchKey(key, pairs[..|pairs| - 1]);
    }
  }

  /** The command keeps its own entry exactly when no parameter is named like it. */
  lemma CommandEntryExactly(command: string, pairs: seq<Pair>)
    ensures var dictionary := Collect([Pair("command", command)] + pairs);
            && "command" in dictionary.entries
            && (dictionary.entries["command"] == Bare(command)
                <==> forall i :: 0 <= i < |pairs| ==> pairs[i].key != "command")
  {
    var first := [Pair(COMMAND, command)];
    assert first[..0] == [] && ValuesOf(COMMAND, first) == [command];
    ValuesOfAppends(COMMAND, first, pairs);
    NoSuchKey(COMMAND, pairs);
    CollectKeepsAllValues(first + pairs, COMMAND);
  }
}
