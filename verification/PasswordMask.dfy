/**
Password masking in gen_print.py: `register_passwords` and `replace_passwords`.

`password_regex` is kept as the text the source builds, and reading that text back shows that it is a plain
ordered alternation of the registered passwords.  `re.sub` is modelled on such an alternation: at each position, from
left to right, the first alternative that matches is replaced and the scan resumes after it.
*/
module PasswordMask {

  import opened Options

  const MASK := "********"

  // ----- The regular expression -----

  /** The characters that `re.escape` escapes. */
  predicate IsSpecial(c: char) {
    c in "()[]{}?*+-|^$\\.&~# \t\n\r" || c as int == 11 || c as int == 12
  }

  function EscapeChar(c: char): string {
    if IsSpecial(c) then ['\\', c] else [c]
  }

  function Escape(text: string): string
    decreases |text|
  {
    if text == [] then [] else EscapeChar(text[0]) + Escape(text[1..])
  }

  function Alternation(words: seq<string>): string
    requires words != []
    decreases |words|
  {
    if |words| == 1 then Escape(words[0]) else Escape(words[0]) + "|" + Alternation(words[1..])
  }

  function RegexText(words: seq<string>): string
    requires words != []
  {
    "(" + Alternation(words) + ")"
  }

  /** The characters that mean something in a regular expression unless they are escaped. */
  predicate IsMeta(c: char) {
    c in ".^$*+?{}[]\\|()"
  }

  /** A backslash takes away the meaning of any character but a letter or a digit; to those it would give one, or be an
      error. */
  predicate MayBeEscaped(c: char) {
    !('a' <= c <= 'z') && !('A' <= c <= 'Z') && !('0' <= c <= '9')
  }

  /** Reads the rest of a parenthesised alternation of literals, `word` being the alternative read so far.  None
      means that the text uses any other regular expression syntax. */
  function ReadWords(text: string, word: string): Option<seq<string>>
    decreases |text|
  {
    if text == [] then None
    else if text[0] == ')' then if |text| == 1 then Some([word]) else None
    else if text[0] == '|' then
      var rest := ReadWords(text[1..], []);
      if rest.Some? then Some([word] + rest.value) else None
    else if text[0] == '\\' then
      if |text| > 1 && MayBeEscaped(text[1]) then ReadWords(text[2..], word + [text[1]]) else None
    else if IsMeta(text[0]) then None
    else ReadWords(text[1..], word + [text[0]])
  }

  function ReadRegex(text: string): Option<seq<string>> {
    if text != [] && text[0] == '(' then ReadWords(text[1..], []) else None
  }

  lemma Associates(a: string, b: string, c: string)
    ensures (a + b) + c == a + (b + c)
  {
  }

  lemma ReadEscapedChar(c: char, rest: string, word: string)
    ensures ReadWords(EscapeChar(c) + rest, word) == ReadWords(rest, word + [c])
  {
    var text := EscapeChar(c) + rest;
    if IsSpecial(c) {
      assert text[0] == '\\' && text[1] == c && text[2..] == rest;
      assert MayBeEscaped(c);
    } else {
      assert !IsMeta(c);
      assert text[0] == c && text[1..] == rest;
    }
  }

  lemma {:induction false} ReadEscaped(text: string, rest: string, word: string)
    ensures ReadWords(Escape(text) + rest, word) == ReadWords(rest, word + text)
    decreases |text|
  {
    if text == [] {
      assert Escape(text) + rest == rest && word + text == word;
    } else {
      var c, tail := text[0], Escape(text[1..]) + rest;
      Associates(EscapeChar(c), Escape(text[1..]), rest);
      ReadEscapedChar(c, tail, word);
      ReadEscaped(text[1..], rest, word + [c]);
      Associates(word, [c], text[1..]);
      assert [c] + text[1..] == text;
    }
  }

  lemma ReadLastWord(word: string)
    ensures ReadWords(Escape(word) + ")", []) == Some([word])
  {
    ReadEscaped(word, ")", []);
    assert [] + word == word;
  }

  lemma ReadWordAndMore(word: string, rest: string)
    ensures ReadWords(Escape(word) + "|" + rest, [])
            == match ReadWords(rest, []) case Some(words) => Some([word] + words) case None => None
  {
    ReadEscaped(word, "|" + rest, []);
    assert [] + word == word;
    assert ("|" + rest)[1..] == rest;
    Associates(Escape(word), "|", rest);
  }

  lemma {:induction false} ReadAlternation(words: seq<string>)
    requires words != []
    ensures ReadWords(Alternation(words) + ")", []) == Some(words)
    decreases |words|
  {
    if |words| == 1 {
      ReadLastWord(words[0]);
      assert [words[0]] == words;
    } else {
      var rest := Alternation(words[1..]) + ")";
      ReadWordAndMore(words[0], rest);
      ReadAlternation(words[1..]);
      Associates(Escape(words[0]) + "|", Alternation(words[1..]), ")");
      assert [words[0]] + words[1..] == words;
    }
  }

  /** Whatever characters the passwords hold, the regular expression is their plain alternation, in order. */
  lemma RegexIsAlternation(words: seq<string>)
    requires words != []
    ensures ReadRegex(RegexText(words)) == Some(words)
  {
    ReadAlternation(words);
    assert RegexText(words)[1..] == Alternation(words) + ")";
  }

  // ----- Masking -----

  /** One step of the scan: a character kept, or a password replaced. */
  datatype Piece = Kept(c: char) | Masked(password: string)

  /** The first alternative that matches at the head of the text. */
  function FirstMatch(words: seq<string>, text: string): Option<string>
    decreases |words|
  {
    if words == [] then None
    else if words[0] <= text then Some(words[0])
    else FirstMatch(words[1..], text)
  }

  predicate NoBlank(words: seq<string>) {
    forall i :: 0 <= i < |words| ==> words[i] != ""
  }

  lemma {:induction false} FirstMatchIsAWord(words: seq<string>, text: string)
    ensures match FirstMatch(words, text)
            case Some(w) => w in words && w <= text
            case None => forall w :: w in words ==> !(w <= text)
    decreases |words|
  {
    if words != [] && !(words[0] <= text) {
      FirstMatchIsAWord(words[1..], text);
      assert forall w :: w in words <==> w == words[0] || w in words[1..];
    }
  }

  function Scan(words: seq<string>, text: string): seq<Piece>
    requires NoBlank(words)
    decreases |text|
  {
    if text == [] then []
    else
      FirstMatchIsAWord(words, text);
      match FirstMatch(words, text)
      case Some(w) => [Masked(w)] + Scan(words, text[|w|..])
      case None => [Kept(text[0])] + Scan(words, text[1..])
  }

  function Shown(piece: Piece): string {
    match piece
    case Kept(c) => [c]
    case Masked(_) => MASK
  }

  function Original(piece: Piece): string {
    match piece
    case Kept(c) => [c]
    case Masked(w) => w
  }

  function Render(pieces: seq<Piece>): string
    decreases |pieces|
  {
    if pieces == [] then [] else Shown(pieces[0]) + Render(pieces[1..])
  }

  function Source(pieces: seq<Piece>): string
    decreases |pieces|
  {
    if pieces == [] then [] else Original(pieces[0]) + Source(pieces[1..])
  }

  function Flags(piece: Piece): (m: seq<bool>)
    ensures |m| == |Shown(piece)|
  {
    if piece.Kept? then [false] else [true, true, true, true, true, true, true, true]
  }

  /** For each character of the rendered text, whether it belongs to a mask. */
  function InMask(pieces: seq<Piece>): (m: seq<bool>)
    ensures |m| == |Render(pieces)|
    decreases |pieces|
  {
    if pieces == [] then [] else Flags(pieces[0]) + InMask(pieces[1..])
  }

  function Mask(words: seq<string>, text: string): string
    requires NoBlank(words)
  {
    Render(Scan(words, text))
  }

  predicate OccursAt(word: string, text: string, i: nat) {
    i + |word| <= |text| && text[i..i + |word|] == word
  }

  ghost predicate Occurs(word: string, text: string) {
    exists i: nat :: OccursAt(word, text, i)
  }

  /** Nothing but passwords is replaced: the pieces spell out the buffer, kept text in place and in order. */
  lemma {:induction false} ScanKeepsTheText(words: seq<string>, text: string)
    requires NoBlank(words)
    ensures Source(Scan(words, text)) == text
    ensures forall i :: 0 <= i < |Scan(words, text)| && Scan(words, text)[i].Masked? ==>
              Scan(words, text)[i].password in words
    decreases |text|
  {
    if text != [] {
      FirstMatchIsAWord(words, text);
      match FirstMatch(words, text)
      case Some(w) => ScanKeepsTheText(words, text[|w|..]);
      case None => ScanKeepsTheText(words, text[1..]);
    }
  }

  /** The first word, in order of registration, that the text begins with. */
  predicate IsFirstMatch(words: seq<string>, text: string, i: nat) {
    i < |words| && words[i] <= text && forall j :: 0 <= j < i ==> !(words[j] <= text)
  }

  lemma {:induction false} FirstMatchIsFirst(words: seq<string>, text: string, i: nat)
    requires IsFirstMatch(words, text, i)
    ensures FirstMatch(words, text) == Some(words[i])
    decreases |words|
  {
    if i > 0 {
      assert IsFirstMatch(words[1..], text, i - 1) by {
        forall j | 0 <= j < i - 1
          ensures !(words[1..][j] <= text)
        {
          assert words[1..][j] == words[j + 1];
        }
      }
      FirstMatchIsFirst(words[1..], text, i - 1);
    }
  }

  lemma ScanTail(words: seq<string>, text: string) returns (rest: string)
    requires NoBlank(words) && text != []
    ensures |rest| < |text| && Scan(words, text)[1..] == Scan(words, rest)
  {
    FirstMatchIsAWord(words, text);
    var piece := Scan(words, text)[0];
    rest := if piece.Masked? then text[|piece.password|..] else text[1..];
  }

  lemma FirstPieceIsFirstMatch(words: seq<string>, text: string)
    requires NoBlank(words) && text != []
    ensures Scan(words, text)[0].Kept? <==> forall w :: w in words ==> !(w <= text)
    ensures forall i: nat :: IsFirstMatch(words, text, i) ==> Scan(words, text)[0] == Masked(words[i])
  {
    FirstMatchIsAWord(words, text);
    forall i: nat | IsFirstMatch(words, text, i)
      ensures Scan(words, text)[0] == Masked(words[i])
    {
      FirstMatchIsFirst(words, text, i);
    }
  }

  /** Leftmost, first alternative: from every piece on, a character is kept exactly when no password begins there, and
      what is replaced is the first registered password that does. */
  lemma {:induction false} ScanIsLeftmostFirst(words: seq<string>, text: string, k: nat)
    requires NoBlank(words) && k < |Scan(words, text)|
    ensures Scan(words, text)[k].Kept? <==> forall w :: w in words ==> !(w <= Source(Scan(words, text)[k..]))
    ensures forall i: nat :: IsFirstMatch(words, Source(Scan(words, text)[k..]), i) ==>
              Scan(words, text)[k] == Masked(words[i])
    decreases |text|
  {
    if k == 0 {
      ScanKeepsTheText(words, text);
      assert Scan(words, text)[0..] == Scan(words, text);
      FirstPieceIsFirstMatch(words, text);
    } else {
      var rest := ScanTail(words, text);
      assert Scan(words, text)[k..] == Scan(words, text)[1..][k - 1..];
      ScanIsLeftmostFirst(words, rest, k - 1);
    }
  }

  /** A prefix of the masked text that lies outside every mask is a prefix of the text itself. */
  lemma {:induction false} KeptPrefix(words: seq<string>, text: string, prefix: string)
    requires NoBlank(words)
    requires prefix <= Mask(words, text)
    requires forall i :: 0 <= i < |prefix| ==> !InMask(Scan(words, text))[i]
    ensures prefix <= text
    decreases |text|
  {
    if prefix != [] {
      FirstMatchIsAWord(words, text);
      var pieces := Scan(words, text);
      assert !InMask(pieces)[0];
      assert pieces[0].Kept?;
      forall i | 0 <= i < |prefix[1..]|
        ensures !InMask(Scan(words, text[1..]))[i]
      {
        assert !InMask(pieces)[i + 1];
      }
      KeptPrefix(words, text[1..], prefix[1..]);
    }
  }

  /** The first step of the scan, and the text that remains after it. */
  lemma ScanSplits(words: seq<string>, text: string) returns (piece: Piece, rest: string)
    requires NoBlank(words) && text != []
    ensures |rest| < |text|
    ensures Mask(words, text) == Shown(piece) + Mask(words, rest)
    ensures InMask(Scan(words, text)) == Flags(piece) + InMask(Scan(words, rest))
    ensures piece.Kept? ==> forall w :: w in words ==> !(w <= text)
  {
    FirstMatchIsAWord(words, text);
    piece := Scan(words, text)[0];
    rest := if piece.Masked? then text[|piece.password|..] else text[1..];
    assert Scan(words, text)[1..] == Scan(words, rest);
  }

  /** One of the n characters from position i on belongs to a mask. */
  ghost predicate MeetsMask(flags: seq<bool>, i: nat, n: nat) {
    exists j :: i <= j < i + n && j < |flags| && flags[j]
  }

  lemma MeetsMaskInTail(head: seq<bool>, tail: seq<bool>, i: nat, n: nat)
    requires |head| <= i && MeetsMask(tail, i - |head|, n)
    ensures MeetsMask(head + tail, i, n)
  {
    var j :| i - |head| <= j < i - |head| + n && j < |tail| && tail[j];
    assert (head + tail)[j + |head|];
  }

  /** No registered password survives: wherever one can be read in the output, part of it is a mask. */
  lemma {:induction false} OccurrenceMeetsMask(words: seq<string>, text: string, word: string, i: nat)
    requires NoBlank(words) && word in words
    requires OccursAt(word, Mask(words, text), i)
    ensures MeetsMask(InMask(Scan(words, text)), i, |word|)
    decreases |text|
  {
    var piece, rest := ScanSplits(words, text);
    var flags := InMask(Scan(words, text));
    if i >= |Shown(piece)| {
      OccursInTail(word, Shown(piece), Mask(words, rest), i);
      OccurrenceMeetsMask(words, rest, word, i - |Shown(piece)|);
      MeetsMaskInTail(Flags(piece), InMask(Scan(words, rest)), i, |word|);
    } else if piece.Masked? {
      assert Flags(piece)[i];
      assert flags[i];
    } else {
      assert i == 0;
      if !MeetsMask(flags, 0, |word|) {
        KeptPrefix(words, text, word);
      }
    }
  }

  lemma OccursInTail(word: string, head: string, tail: string, i: nat)
    requires |head| <= i && OccursAt(word, head + tail, i)
    ensures OccursAt(word, tail, i - |head|)
  {
    assert (head + tail)[i..i + |word|] == tail[i - |head|..i - |head| + |word|];
  }

  /** The password can blend in with the masks: it begins or ends with an asterisk, or holds a whole mask. */
  ghost predicate BlendsIn(word: string) {
    word != "" && (word[0] == '*' || word[|word| - 1] == '*' || Occurs("********", word))
  }

  lemma OccursAfter(word: string, head: string, tail: string, i: nat)
    requires OccursAt(word, tail, i)
    ensures OccursAt(word, head + tail, |head| + i)
  {
    assert (head + tail)[|head| + i..|head| + i + |word|] == tail[i..i + |word|];
  }

  /** The mask to which a masked character belongs begins at m. */
  lemma {:induction false} MaskAround(pieces: seq<Piece>, j: nat) returns (m: nat)
    requires j < |Render(pieces)| && InMask(pieces)[j]
    ensures m <= j < m + |MASK| && OccursAt(MASK, Render(pieces), m)
    decreases |pieces|
  {
    var head, tail := Shown(pieces[0]), Render(pieces[1..]);
    if j < |head| {
      m := 0;
      assert Flags(pieces[0])[j];
      assert pieces[0].Masked?;
      assert (head + tail)[..|head|] == head;
    } else {
      var k := MaskAround(pieces[1..], j - |head|);
      m := |head| + k;
      OccursAfter(MASK, head, tail, k);
    }
  }

  /** A word that can be read across a mask begins or ends inside it, or holds it. */
  lemma AcrossMask(word: string, text: string, i: nat, j: nat, m: nat)
    requires word != "" && OccursAt(word, text, i) && i <= j < i + |word|
    requires m <= j < m + |MASK| && OccursAt(MASK, text, m)
    ensures BlendsIn(word)
  {
    assert forall k :: 0 <= k < |MASK| ==> MASK[k] == '*';
    assert forall k :: m <= k < m + |MASK| ==> text[k] == MASK[k - m] == '*';
    assert forall k :: 0 <= k < |word| ==> word[k] == text[i + k];
    if i <= m && m + |MASK| <= i + |word| {
      assert OccursAt(MASK, word, m - i);
    }
  }

  /** No registered password that cannot blend in with the masks is left in the output. */
  lemma MaskIsSound(words: seq<string>, text: string, word: string)
    requires NoBlank(words) && word in words && !BlendsIn(word)
    ensures !Occurs(word, Mask(words, text))
  {
    if Occurs(word, Mask(words, text)) {
      var i: nat :| OccursAt(word, Mask(words, text), i);
      OccurrenceMeetsMask(words, text, word, i);
      var flags := InMask(Scan(words, text));
      var j :| i <= j < i + |word| && j < |flags| && flags[j];
      var m := MaskAround(Scan(words, text), j);
      AcrossMask(word, Mask(words, text), i, j, m);
    }
  }

  /** A password that is one asterisk can be read in the output. */
  lemma StarPasswordLeaks()
    ensures Mask(["*"], "*") == "********" && Occurs("*", Mask(["*"], "*"))
  {
    var words := ["*"];
    assert "*"[1..] == "";
    assert FirstMatch(words, "*") == Some("*");
    assert Scan(words, "*") == [Masked("*")];
    assert [Masked("*")][1..] == [];
    assert OccursAt("*", MASK, 0);
  }

  lemma OccursAtHead(word: string, text: string)
    requires word <= text
    ensures Occurs(word, text)
  {
    assert OccursAt(word, text, 0);
  }

  lemma OccursInRest(word: string, text: string, n: nat)
    requires n <= |text| && Occurs(word, text[n..])
    ensures Occurs(word, text)
  {
    var i: nat :| OccursAt(word, text[n..], i);
    assert text[n + i..n + i + |word|] == text[n..][i..i + |word|];
    assert OccursAt(word, text, n + i);
  }

  lemma OccursLater(word: string, text: string)
    requires text != [] && Occurs(word, text) && !(word <= text)
    ensures Occurs(word, text[1..])
  {
    var i: nat :| OccursAt(word, text, i);
    assert text[1..][i - 1..i - 1 + |word|] == text[i..i + |word|];
    assert OccursAt(word, text[1..], i - 1);
  }

  /** What masking does, one step at a time: at the first registered password with which the text begins it writes eight
      asterisks and goes on after it, and where there is none it keeps one character. */
  lemma MaskIsLeftmostFirst(words: seq<string>, text: string)
    requires NoBlank(words)
    ensures text == "" ==> Mask(words, text) == ""
    ensures forall i: nat :: IsFirstMatch(words, text, i) ==>
              |words[i]| <= |text| && Mask(words, text) == "********" + Mask(words, text[|words[i]|..])
    ensures text != "" && (forall w :: w in words ==> !(w <= text)) ==>
              Mask(words, text) == [text[0]] + Mask(words, text[1..])
  {
    forall i: nat | IsFirstMatch(words, text, i)
      ensures |words[i]| <= |text| && Mask(words, text) == "********" + Mask(words, text[|words[i]|..])
    {
      FirstMatchIsFirst(words, text, i);
      assert words[i] in words && words[i] != "";
      MaskSteps(words, text);
    }
    if text != "" {
      MaskSteps(words, text);
    }
  }

  /** Masking, one step at a time. */
  lemma MaskSteps(words: seq<string>, text: string)
    requires NoBlank(words) && text != []
    ensures match FirstMatch(words, text)
            case Some(w) => w in words && w != "" && w <= text && Mask(words, text) == MASK + Mask(words, text[|w|..])
            case None =>
              && (forall w :: w in words ==> !(w <= text))
              && Mask(words, text) == [text[0]] + Mask(words, text[1..])
  {
    FirstMatchIsAWord(words, text);
    match FirstMatch(words, text)
    case Some(w) => assert Scan(words, text)[1..] == Scan(words, text[|w|..]);
    case None => assert Scan(words, text)[1..] == Scan(words, text[1..]);
  }

  /** No password but the mask itself occurs in the text. */
  ghost predicate Clean(words: seq<string>, text: string) {
    forall w :: w in words ==> w == MASK || !Occurs(w, text)
  }

  lemma CleanStep(words: seq<string>, text: string) returns (head: string)
    requires NoBlank(words) && text != [] && Clean(words, text)
    ensures head != "" && head <= text && Mask(words, text) == head + Mask(words, text[|head|..])
  {
    MaskSteps(words, text);
    match FirstMatch(words, text)
    case Some(w) =>
      OccursAtHead(w, text);
      head := w;
    case None =>
      head := [text[0]];
  }

  lemma CleanRest(words: seq<string>, text: string, n: nat)
    requires n <= |text| && Clean(words, text)
    ensures Clean(words, text[n..])
  {
    forall w | w in words && Occurs(w, text[n..])
      ensures w == MASK
    {
      OccursInRest(w, text, n);
    }
  }

  /** Text in which no password occurs, but perhaps one that is itself the mask, is left alone. */
  lemma {:induction false} MaskLeavesCleanText(words: seq<string>, text: string)
    requires NoBlank(words) && Clean(words, text)
    ensures Mask(words, text) == text
    decreases |text|
  {
    if text != [] {
      var head := CleanStep(words, text);
      CleanRest(words, text, |head|);
      MaskLeavesCleanText(words, text[|head|..]);
    }
  }

  /** Masking what was masked changes nothing, unless some password other than the mask itself can blend in. */
  lemma MaskIsIdempotent(words: seq<string>, text: string)
    requires NoBlank(words)
    requires forall w :: w in words && BlendsIn(w) ==> w == "********"
    ensures Mask(words, Mask(words, text)) == Mask(words, text)
  {
    forall w | w in words
      ensures w == MASK || !Occurs(w, Mask(words, text))
    {
      if w != MASK {
        MaskIsSound(words, text, w);
      }
    }
    MaskLeavesCleanText(words, Mask(words, text));
  }

  // ----- Exactly which passwords can be read, and which spoil a second masking -----

  /** No password is found before the tail. */
  predicate NothingBefore(words: seq<string>, head: string, tail: string) {
    forall k, w :: 0 <= k < |head| && w in words ==> !(w <= (head + tail)[k..])
  }

  lemma {:induction false} HeadIsKept(words: seq<string>, head: string, tail: string)
    requires NoBlank(words) && NothingBefore(words, head, tail)
    ensures Mask(words, head + tail) == head + Mask(words, tail)
    decreases |head|
  {
    if head == [] {
      assert head + tail == tail;
    } else {
      var text := head + tail;
      var rest := head[1..] + tail;
      assert text[0..] == text && text[1..] == rest;
      forall k, w | 0 <= k < |head[1..]| && w in words
        ensures !(w <= rest[k..])
      {
        assert rest[k..] == text[k + 1..];
      }
      HeadIsKept(words, head[1..], tail);
      MaskSteps(words, text);
      Associates([head[0]], head[1..], Mask(words, tail));
      assert [head[0]] + head[1..] == head;
    }
  }

  /** Text shorter than every password is left alone. */
  lemma ShortTextIsKept(words: seq<string>, text: string)
    requires NoBlank(words) && forall w :: w in words ==> |w| > |text|
    ensures Mask(words, text) == text
  {
    MaskLeavesCleanText(words, text);
  }

  lemma HeadIsMasked(words: seq<string>, word: string, rest: string)
    requires NoBlank(words) && FirstMatch(words, word + rest) == Some(word) && word != ""
    ensures Mask(words, word + rest) == MASK + Mask(words, rest)
  {
    assert (word + rest)[|word|..] == rest;
    assert Scan(words, word + rest) == [Masked(word)] + Scan(words, rest);
  }

  /** A password that begins with an asterisk can be read where a mask ends. */
  lemma LeadingStarShows(word: string) returns (text: string)
    requires word != "" && word[0] == '*'
    ensures Mask([word], text) == MASK + word[1..] && Occurs(word, Mask([word], text))
  {
    text := word + word[1..];
    HeadIsMasked([word], word, word[1..]);
    ShortTextIsKept([word], word[1..]);
    Associates("*******", "*", word[1..]);
    assert "*******" + "*" == MASK && "*" + word[1..] == word;
    assert OccursAt(word, word, 0);
    OccursAfter(word, "*******", word, 0);
  }

  function Repeated(c: char, n: nat): string {
    seq(n, i => c)
  }

  /** A run of letters, other than the last character before it, that is as long as the password. */
  function Filler(word: string, p: nat): string
    requires 0 < p < |word|
  {
    Repeated(if word[p - 1] == 'a' then 'b' else 'a', |word|)
  }

  /** Neither the password, which has an asterisk at p, nor the run of letters is found before the run. */
  lemma FillerComesFirst(word: string, p: nat, rest: string)
    requires 0 < p < |word| && word[p] == '*'
    ensures NothingBefore([word, Filler(word, p)], word[..p], Filler(word, p) + rest)
    ensures FirstMatch([word, Filler(word, p)], Filler(word, p) + rest) == Some(Filler(word, p))
  {
    var z := Filler(word, p);
    var text := word[..p] + (z + rest);
    forall k | 0 <= k < p
      ensures !(word <= text[k..]) && !(z <= text[k..])
    {
      assert text[k..][p] == z[k] && word[p] != z[k];
      assert text[k..][p - 1 - k] == word[p - 1] && z[p - 1 - k] != word[p - 1];
    }
    assert (z + rest)[p] == z[p] && word[p] != z[p];
    assert [word, z][1..] == [z];
  }

  /** A password that ends with an asterisk, or holds a mask, can be read where another password is masked. */
  lemma InnerStarsShow(word: string, p: nat, rest: string) returns (text: string)
    requires 0 < p < |word| && word[p] == '*' && |rest| < |word|
    ensures Mask([word, Filler(word, p)], text) == word[..p] + (MASK + rest)
  {
    var z := Filler(word, p);
    text := word[..p] + (z + rest);
    FillerComesFirst(word, p, rest);
    HeadIsKept([word, z], word[..p], z + rest);
    HeadIsMasked([word, z], z, rest);
    ShortTextIsKept([word, z], rest);
  }

  lemma FillerDoesNotBlendIn(word: string, p: nat)
    requires 0 < p < |word|
    ensures !BlendsIn(Filler(word, p))
  {
    var z := Filler(word, p);
    forall i: nat
      ensures !OccursAt(MASK, z, i)
    {
      assert i + |MASK| <= |z| ==> z[i..i + |MASK|][0] == z[i];
    }
  }

  /** A text, and passwords of which no other can blend in, for which the password can be read in the output. */
  lemma BlendingShows(word: string) returns (words: seq<string>, text: string)
    requires BlendsIn(word)
    ensures NoBlank(words) && word in words && Occurs(word, Mask(words, text))
    ensures forall w :: w in words && w != word ==> !BlendsIn(w) && !Occurs(w, Mask(words, text))
  {
    if word[0] == '*' {
      words := [word];
      text := LeadingStarShows(word);
    } else {
      var p, rest := InnerStars(word);
      words := [word, Filler(word, p)];
      text := InnerStarsShow(word, p, rest);
      var output := word[..p] + (MASK + rest);
      assert OccursAt(word, output, 0);
      FillerDoesNotBlendIn(word, p);
      MaskIsSound(words, text, Filler(word, p));
    }
  }

  /** The part of the password that comes before its mask, and what is left after it. */
  lemma InnerStars(word: string) returns (p: nat, rest: string)
    requires BlendsIn(word) && word[0] != '*'
    ensures 0 < p < |word| && word[p] == '*' && |rest| < |word|
    ensures word <= word[..p] + (MASK + rest)
  {
    if word[|word| - 1] == '*' {
      p, rest := |word| - 1, "";
    } else {
      p :| OccursAt(MASK, word, p);
      rest := word[p + |MASK|..];
      assert word[p] == word[p..p + |MASK|][0];
      assert word == word[..p] + (word[p..p + |MASK|] + rest);
    }
  }

  /** Exactly which passwords masking hides, whatever else is registered and whatever the text: those that cannot
      blend in with the masks. */
  lemma MaskHidesExactly(word: string)
    requires word != ""
    ensures (forall words, text :: NoBlank(words) && word in words ==> !Occurs(word, Mask(words, text)))
            <==> !BlendsIn(word)
  {
    if BlendsIn(word) {
      var words, text := BlendingShows(word);
      assert Occurs(word, Mask(words, text));
    } else {
      forall words, text | NoBlank(words) && word in words
        ensures !Occurs(word, Mask(words, text))
      {
        MaskIsSound(words, text, word);
      }
    }
  }

  /** Masking a text in which one password other than the mask occurs, and no other one, changes it: a shorter
      password makes it longer, a longer one shorter, and one as long as the mask is overwritten. */
  lemma {:induction false} MaskChanges(words: seq<string>, word: string, text: string)
    requires NoBlank(words) && word in words && word != MASK
    requires forall w :: w in words && w != word ==> !Occurs(w, text)
    ensures |word| < |MASK| ==> |Mask(words, text)| >= |text| + if Occurs(word, text) then 1 else 0
    ensures |word| > |MASK| ==> |Mask(words, text)| <= |text| - if Occurs(word, text) then 1 else 0
    ensures |word| == |MASK| && Occurs(word, text) ==> Mask(words, text) != text
    decreases |text|
  {
    if text != [] {
      MaskSteps(words, text);
      var n := 1;
      if FirstMatch(words, text).Some? {
        OccursAtHead(FirstMatch(words, text).value, text);
        n := |word|;
        assert |word| == |MASK| ==> Mask(words, text)[..n] == MASK && text[..n] == word;
      } else {
        assert Mask(words, text)[1..] == Mask(words, text[1..]);
        if Occurs(word, text) { OccursLater(word, text); }
      }
      forall w | w in words && w != word
        ensures !Occurs(w, text[n..])
      {
        if Occurs(w, text[n..]) { OccursInRest(w, text, n); }
      }
      MaskChanges(words, word, text[n..]);
    }
  }

  /** Exactly which password can make a second masking change the text, among passwords that otherwise cannot blend
      in: one that does blend in and is not the mask itself. */
  lemma MaskIsIdempotentExactly(word: string)
    requires word != ""
    ensures (forall words, text ::
               NoBlank(words) && word in words && (forall w :: w in words && w != word ==> !BlendsIn(w))
               ==> Mask(words, Mask(words, text)) == Mask(words, text))
            <==> !BlendsIn(word) || word == "********"
  {
    if BlendsIn(word) && word != MASK {
      var words, text := BlendingShows(word);
      MaskChanges(words, word, Mask(words, text));
      assert Mask(words, Mask(words, text)) != Mask(words, text);
    } else {
      forall words, text | NoBlank(words) && word in words && forall w :: w in words && w != word ==> !BlendsIn(w)
        ensures Mask(words, Mask(words, text)) == Mask(words, text)
      {
        MaskIsIdempotent(words, text);
      }
    }
  }

  // ----- Registration -----

  predicate Distinct(words: seq<string>) {
    forall i, j :: 0 <= i < j < |words| ==> words[i] != words[j]
  }

  /** The passwords known after a call: the loop stops at the first argument that is blank or already known. */
  function Registered(hidden: seq<string>, args: seq<string>): seq<string>
    decreases |args|
  {
    if args == [] || args[0] == "" || args[0] in hidden then hidden
    else Registered(hidden + [args[0]], args[1..])
  }

  /** The argument is a password that neither the list nor an earlier argument holds. */
  predicate Fresh(hidden: seq<string>, args: seq<string>, i: nat)
    requires i < |args|
  {
    args[i] != "" && args[i] !in hidden && args[i] !in args[..i]
  }

  lemma {:induction false} RegisteredTakesFreshPrefix(hidden: seq<string>, args: seq<string>, n: nat)
    requires n <= |args|
    requires forall i :: 0 <= i < n ==> Fresh(hidden, args, i)
    requires n < |args| ==> !Fresh(hidden, args, n)
    ensures Registered(hidden, args) == hidden + args[..n]
    decreases |args|
  {
    if n == 0 {
      assert hidden + args[..0] == hidden;
    } else {
      assert Fresh(hidden, args, 0);
      var hidden', args' := hidden + [args[0]], args[1..];
      forall i | 0 <= i < |args'|
        ensures Fresh(hidden', args', i) <==> Fresh(hidden, args, i + 1)
      {
        assert args[..i + 1] == [args[0]] + args'[..i];
      }
      RegisteredTakesFreshPrefix(hidden', args', n - 1);
      assert hidden' + args'[..n - 1] == hidden + args[..n];
    }
  }

  /** What the documentation promises: blank arguments are ignored and every other one is registered. */
  predicate AllRegistered(hidden: seq<string>, args: seq<string>) {
    forall i :: 0 <= i < |args| && args[i] != "" ==> args[i] in Registered(hidden, args)
  }

  /** The promise is kept exactly when the fresh arguments come first. */
  lemma AllRegisteredExactly(hidden: seq<string>, args: seq<string>)
    ensures AllRegistered(hidden, args) <==>
            forall i, j :: 0 <= i < j < |args| && Fresh(hidden, args, j) ==> Fresh(hidden, args, i)
  {
    var n := FirstStale(hidden, args);
    RegisteredTakesFreshPrefix(hidden, args, n);
    if forall i, j :: 0 <= i < j < |args| && Fresh(hidden, args, j) ==> Fresh(hidden, args, i) {
      forall i | 0 <= i < |args| && args[i] != ""
        ensures args[i] in Registered(hidden, args)
      {
        StaleIsKnown(hidden, args, n, i);
      }
    }
    if AllRegistered(hidden, args) {
      forall i, j | 0 <= i < j < |args| && Fresh(hidden, args, j)
        ensures Fresh(hidden, args, i)
      {
      }
    }
  }

  lemma FirstStale(hidden: seq<string>, args: seq<string>) returns (n: nat)
    ensures n <= |args|
    ensures forall i :: 0 <= i < n ==> Fresh(hidden, args, i)
    ensures n < |args| ==> !Fresh(hidden, args, n)
  {
    n := 0;
    while n < |args| && Fresh(hidden, args, n)
      invariant n <= |args|
      invariant forall i :: 0 <= i < n ==> Fresh(hidden, args, i)
    {
      n := n + 1;
    }
  }

  lemma {:induction false} StaleIsKnown(hidden: seq<string>, args: seq<string>, n: nat, i: nat)
    requires n <= |args| && i < |args| && args[i] != ""
    requires forall k :: n <= k < |args| ==> !Fresh(hidden, args, k)
    ensures args[i] in hidden + args[..n]
    decreases i
  {
    if n <= i && args[i] !in hidden {
      assert !Fresh(hidden, args, i);
      assert args[i] in args[..i];
      var k :| 0 <= k < i && args[k] == args[i];
      StaleIsKnown(hidden, args, n, k);
    }
  }

  /** A blank argument makes the loop drop the password after it. */
  lemma BlankArgumentStopsRegistration()
    ensures Registered([], ["", "secret"]) == [] && !AllRegistered([], ["", "secret"])
  {
    assert ["", "secret"][1] == "secret";
  }

  /** The module state of gen_print.py that masking uses. */
  class Masker {
    var hiddenText: seq<string>
    var passwordRegex: string

    ghost predicate Valid()
      reads this
    {
      && NoBlank(hiddenText) && Distinct(hiddenText)
      && passwordRegex == if hiddenText == [] then "" else RegexText(hiddenText)
    }

    constructor ()
      ensures Valid() && hiddenText == []
    {
      hiddenText, passwordRegex := [], "";
    }

    /** Place a password into the list and rebuild the regular expression. */
    method AddPassword(password: string)
      requires Valid() && password != "" && password !in hiddenText
      modifies this
      ensures Valid() && hiddenText == old(hiddenText) + [password]
    {
      hiddenText := hiddenText + [password];
      passwordRegex := RegexText(hiddenText);
    }

    /** `register_passwords` */
    method RegisterPasswords(args: seq<string>)
      requires Valid()
      modifies this
      ensures Valid()
      ensures hiddenText == Registered(old(hiddenText), args)
    {
      var i := 0;
      while i < |args|
        invariant 0 <= i <= |args| && Valid()
        invariant Registered(old(hiddenText), args) == Registered(hiddenText, args[i..])
      {
        if args[i] == "" || args[i] in hiddenText {
          break;
        }
        assert args[i..][1..] == args[i + 1..];
        AddPassword(args[i]);
        i := i + 1;
      }
    }

    /** `replace_passwords`; `showPasswords` is the DEBUG_SHOW_PASSWORDS setting. */
    method ReplacePasswords(buffer: string, showPasswords: int) returns (masked: string)
      requires Valid()
      ensures showPasswords == 0 ==> masked == Mask(hiddenText, buffer)
      ensures showPasswords != 0 ==> masked == buffer
    {
      if showPasswords != 0 {
        return buffer;
      }
      if passwordRegex == "" {
        assert forall w :: w in hiddenText ==> !Occurs(w, buffer);
        MaskLeavesCleanText(hiddenText, buffer);
        return buffer;
      }
      RegexIsAlternation(hiddenText);
      var words := ReadRegex(passwordRegex).value;
      masked := Mask(words, buffer);
    }
  }
}
