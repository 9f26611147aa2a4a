/** The nbio parameter-file parser: one character at a time through the state table, tokens kept as
    positions in the line buffer. */
module ConfigParser {
  import opened Common
  import opened ConfigGrammar

  const NUM_TOKENS: nat := 4

  datatype Token = Token(col: nat, len: nat)

  /** The callbacks of the parser, with the text they are given. */
  datatype Call =
    | SectionDefined(name: string)
    | PropertyDefined(key: string, value: string)

  datatype Result = Success | SyntaxError | LongToken | UndefinedEnv

  // ---------- what a decomposition means for the parser's fields ----------

  ghost function SetLast(spans: seq<Token>, len: nat): seq<Token> {
    if spans == [] then [] else spans[..|spans| - 1] + [Token(spans[|spans| - 1].col, len)]
  }

  /** The token slots in use after reading sh. */
  ghost function Spans(sh: Shape): seq<Token> {
    match sh
    case Lead(_) => []
    case Then(before, kind, text, _) =>
      var spans := Spans(before);
      match kind
      case SectionName | PropKey | PropValue | EnvDollar => spans + [Token(|Text(before)|, |text|)]
      case EnvOpener | EnvKey | EnvCloser => SetLast(spans, TokenLength(sh))
      case _ => spans
  }

  ghost predicate HasToken(kind: State) {
    && kind != Init && kind != Error && kind != Endline
    && kind != SectionOpener && kind != SectionCloser && kind != PropEqual
  }

  predicate Opens(kind: State) {
    kind in {SectionName, PropKey, PropValue, EnvDollar}
  }

  ghost function Slots(kind: State): nat {
    match kind
    case Init | SectionOpener => 0
    case SectionName | SectionCloser | PropKey | PropEqual => 1
    case _ => 2
  }

  lemma SpanCount(sh: Shape)
    requires WellFormed(sh)
    ensures |Spans(sh)| == Slots(Kind(sh)) <= 2
  {
  }

  lemma SpanLength(sh: Shape)
    requires WellFormed(sh) && HasToken(Kind(sh))
    ensures sh.Then? && |Spans(sh)| > 0 && Spans(sh)[|Spans(sh)| - 1].len == TokenLength(sh)
  {
    SpanCount(sh);
    if sh.kind in {EnvOpener, EnvKey, EnvCloser} { SpanCount(sh.before); }
  }

  /** A reference is six tokens: key, =, $, {, name and }. */
  ghost predicate IsReference(sh: Shape) {
    && Kind(sh) == EnvCloser && Kind(sh.before) == EnvKey && Kind(sh.before.before) == EnvOpener
    && Kind(sh.before.before.before) == EnvDollar && Kind(sh.before.before.before.before) == PropEqual
    && Kind(sh.before.before.before.before.before) == PropKey
    && sh.before.before.text == "{" && sh.before.before.before.text == "$" && sh.text == "}"
  }

  lemma ReferenceTokens(sh: Shape)
    requires WellFormed(sh) && Kind(sh) == EnvCloser
    ensures IsReference(sh)
  {
    hide WellFormed;
    Unfold(sh, EnvCloser);
    Unfold(sh.before, EnvKey);
    Unfold(sh.before.before, EnvOpener);
    Unfold(sh.before.before.before, EnvDollar);
    Unfold(sh.before.before.before.before, PropEqual);
  }

  /** The text from the dollar sign to the end of the name, after which at least the brace follows. */
  lemma ReferenceText(sh: Shape)
    requires IsReference(sh)
    ensures TokenLength(sh) == 3 + |sh.before.text|
    ensures var d := sh.before.before.before;
            Text(sh) == Text(d.before)
              + ("$" + d.gap + "{" + sh.before.before.gap + sh.before.text + sh.before.gap + "}" + sh.gap)
  {
    var name := sh.before;
    var brace := name.before;
    var dollar := brace.before;
    assert Text(dollar) == Text(dollar.before) + "$" + dollar.gap;
    assert Text(brace) == Text(dollar) + "{" + brace.gap;
    assert Text(name) == Text(brace) + name.text + name.gap;
    assert TokenLength(dollar) == 1 && TokenLength(brace) == 2;
  }

  /** The environment variable name that on_env_refered cuts out of a reference. */
  ghost function ReferencedName(sh: Shape): string
    requires IsReference(sh)
  {
    ReferenceText(sh);
    var from := |Text(sh.before.before.before.before)| + 2;
    Text(sh)[from..from + |sh.before.text|]
  }

  lemma CutIsName(d: string, e: string, name: string, rest: string)
    requires Blanks(d) && Blanks(e) && name != "" && NameChar(name[0])
    ensures ("$" + d + "{" + e + name + rest)[2..2 + |name|] == name <==> d == "" && e == ""
  {
    var tail := "$" + d + "{" + e + name + rest;
    var cut := tail[2..2 + |name|];
    if d == "" && e == "" {
      assert cut == name;
    } else {
      assert cut[0] == tail[2];
      assert tail[2] == if |d| == 1 then '{' else if d == "" then e[0] else d[1];
    }
  }

  /** The name cut out is the name written exactly when no blank stands between the dollar sign and
      the name, although the grammar admits blanks there. */
  lemma ReferencedNameExactIff(sh: Shape)
    requires WellFormed(sh) && IsReference(sh)
    ensures ReferencedName(sh) == sh.before.text <==> sh.before.before.before.gap == "" && sh.before.before.gap == ""
  {
    hide WellFormed, Text, TokenLength, Blanks;
    Unfold(sh, EnvCloser);
    Unfold(sh.before, EnvKey);
    Unfold(sh.before.before, EnvOpener);
    Unfold(sh.before.before.before, EnvDollar);
    ReferenceText(sh);
    var name, d, e := sh.before.text, sh.before.before.before.gap, sh.before.before.gap;
    var rest := sh.before.gap + "}" + sh.gap;
    CutIsName(d, e, name, rest);
    var tail := "$" + d + "{" + e + name + rest;
    assert Text(sh) == Text(sh.before.before.before.before) + tail;
    assert ReferencedName(sh) == tail[2..2 + |name|];
  }

  /** The line k=${ a}. */
  function BlankReference(): Shape {
    ReferenceLine(KeyEquals("", "k", "", ""), "", " ", "a", "", "")
  }

  lemma BlankReferenceText()
    ensures WellFormed(BlankReference()) && Complete(BlankReference()) && Text(BlankReference()) == "k=${ a}"
  {
    ReferenceLines("", "k", "", "", "", " ", "a", "", "");
  }

  lemma BlankReferenceCut()
    ensures IsReference(BlankReference()) && ReferencedName(BlankReference()) == " "
  {
    hide WellFormed, Text;
    BlankReferenceText();
    KeyLines("", "k", "", "");
    var sh := BlankReference();
    assert sh.before.before.before.before == KeyEquals("", "k", "", "") && sh.before.text == "a";
    ReferenceTokens(sh);
    assert ReferencedName(sh) == "k=${ a}"[4..5];
  }

  /** The smallest surprise: "k=${ a}" is a line, and the variable looked up is " ". */
  lemma BlankInReference()
    ensures InGrammar("k=${ a}")
    ensures forall sh | WellFormed(sh) && Text(sh) == "k=${ a}" :: IsReference(sh) && ReferencedName(sh) == " "
  {
    hide WellFormed, Text, IsReference, ReferencedName, BlankReference;
    BlankReferenceText();
    BlankReferenceCut();
    forall sh | WellFormed(sh) && Text(sh) == "k=${ a}" ensures sh == BlankReference() {
      DecomposeUnique(sh, BlankReference());
    }
  }

  // ---------- the parser ----------

  /** What the callbacks have been given once sh has been read, and once its line has ended. */
  ghost function CallsBeforeEnd(sh: Shape): seq<Call>
  {
    if Kind(sh) == SectionCloser && sh.before.Then? then [SectionDefined(sh.before.text)] else []
  }

  ghost predicate Defined(sh: Shape, env: map<string, string>) {
    IsReference(sh) ==> ReferencedName(sh) in env
  }

  ghost predicate IsProperty(sh: Shape) {
    Kind(sh) == PropValue && Kind(sh.before) == PropEqual && Kind(sh.before.before) == PropKey
  }

  lemma PropertyTokens(sh: Shape)
    requires WellFormed(sh) && Kind(sh) == PropValue
    ensures IsProperty(sh)
  {
    hide WellFormed;
    Unfold(sh, PropValue);
    Unfold(sh.before, PropEqual);
  }

  ghost function Calls(sh: Shape, env: map<string, string>): seq<Call>
    requires WellFormed(sh) && Defined(sh, env)
  {
    match Kind(sh)
    case SectionCloser => [SectionDefined(sh.before.text)]
    case PropValue =>
      PropertyTokens(sh);
      [PropertyDefined(sh.before.before.text, sh.text)]
    case EnvCloser =>
      ReferenceTokens(sh);
      [PropertyDefined(sh.before.before.before.before.before.text, env[ReferencedName(sh)])]
    case _ => []
  }

  /** What one character does to the token slots. */
  ghost function SpansAfter(sh: Shape, next: State): seq<Token> {
    var spans := Spans(sh);
    if Opens(next) && next != Kind(sh) then spans + [Token(|Text(sh)|, 1)]
    else if HasToken(next) && spans != [] then SetLast(spans, spans[|spans| - 1].len + 1)
    else spans
  }

  lemma SetTwice(spans: seq<Token>, m: nat, n: nat)
    ensures SetLast(SetLast(spans, m), n) == SetLast(spans, n)
  {
  }

  lemma SetAppended(spans: seq<Token>, t: Token, n: nat)
    ensures SetLast(spans + [t], n) == spans + [Token(t.col, n)]
  {
  }

  lemma SpansGrow(sh: Shape, c: char)
    requires WellFormed(sh) && Kind(sh) in {SectionName, PropKey, PropValue, EnvKey}
    ensures Spans(sh.(text := sh.text + [c])) == SpansAfter(sh, sh.kind)
  {
    hide WellFormed, Text, SetLast;
    SpanLength(sh);
    if sh.kind == EnvKey {
      SetTwice(Spans(sh.before), TokenLength(sh), TokenLength(sh) + 1);
    } else {
      SetAppended(Spans(sh.before), Token(|Text(sh.before)|, |sh.text|), |sh.text| + 1);
    }
  }

  lemma SpansStart(sh: Shape, next: State, c: char)
    requires WellFormed(sh) && MayFollow(Kind(sh), next)
    ensures Spans(Then(sh, next, [c], "")) == SpansAfter(sh, next)
  {
    hide WellFormed, SetLast;
    SpanCount(sh);
    if HasToken(Kind(sh)) { SpanLength(sh); }
  }

  lemma SpansExtend(sh: Shape, c: char)
    requires WellFormed(sh) && !IsSpace(c) && Extend(sh, c).Some?
    ensures Spans(Extend(sh, c).value) == SpansAfter(sh, NextState(Kind(sh), c))
  {
    hide Lexeme, NextState, Blanks, MayFollow, Spans, WellFormed, SpansAfter;
    ExtendKind(sh, c);
    if NextState(Kind(sh), c) == Kind(sh) {
      SpansGrow(sh, c);
    } else {
      SpansStart(sh, NextState(Kind(sh), c), c);
    }
  }

  lemma ExtendKind(sh: Shape, c: char)
    requires WellFormed(sh) && !IsSpace(c) && Extend(sh, c).Some?
    ensures var more := Extend(sh, c).value;
            && more.Then? && more.kind == NextState(Kind(sh), c) && more.gap == "" && WellFormed(more)
            && (more.kind != Kind(sh) ==> more.before == sh && MayFollow(Kind(sh), more.kind))
            && (more.kind == Kind(sh) ==> sh.Then? && more == sh.(text := sh.text + [c]))
            && (more.kind == Kind(sh) ==> more.kind in {SectionName, PropKey, PropValue, EnvKey})
  {
    hide Lexeme, Blanks, NextState, MayFollow;
    ExtendSound(sh, c);
    TableKinds(Kind(sh), c);
    NeverInit(Kind(sh), c);
  }

  /** The count of the current token after one more character. */
  ghost function LengthAfter(sh: Shape, next: State): nat {
    if Opens(next) && next != Kind(sh) then 1 else TokenLength(sh) + 1
  }

  lemma LengthAfterIs(sh: Shape, next: State)
    ensures Opens(next) && next != Kind(sh) ==> LengthAfter(sh, next) == 1
    ensures !(Opens(next) && next != Kind(sh)) ==> LengthAfter(sh, next) == TokenLength(sh) + 1
  {
  }

  /** The table and the count decide together whether a character is taken. */
  lemma LengthDecides(sh: Shape, c: char)
    requires WellFormed(sh) && !IsSpace(c)
    ensures
      var next := NextState(Kind(sh), c);
      Extend(sh, c).Some? <==>
        && next != Error && next != Endline && (next == Kind(sh) ==> sh.Then? && sh.gap == "")
        && (HasToken(next) ==> LengthAfter(sh, next) < MAX_TOKEN_LEN)
  {
    hide NextState, WellFormed, Lexeme, Blanks;
    NeverInit(Kind(sh), c);
    TableKinds(Kind(sh), c);
  }

  lemma TableKinds(kind: State, c: char)
    ensures var next := NextState(kind, c);
            && (c == '\0' ==> next == if kind in {Init, SectionCloser, PropValue, EnvCloser} then Endline else Error)
            && (c != '\0' ==> next != Endline)
            && (next != Error && next != Endline && next != kind ==> MayFollow(kind, next))
            && (next == kind && next != Error ==> HasToken(next) && next in {SectionName, PropKey, PropValue, EnvKey})
  {
  }

  ghost predicate Spells(line: string, t: Token, text: string) {
    t.col + t.len <= |line| && line[t.col..t.col + t.len] == text
  }

  /** The slots of a section and of a property spell their tokens. */
  lemma SlotTexts(sh: Shape)
    requires WellFormed(sh)
    ensures Kind(sh) == SectionName ==> |Spans(sh)| == 1 && Spells(Text(sh), Spans(sh)[0], sh.text)
    ensures Kind(sh) == PropKey ==> |Spans(sh)| == 1 && Spells(Text(sh), Spans(sh)[0], sh.text)
    ensures Kind(sh) == PropEqual ==>
      |Spans(sh)| == 1 && sh.before.Then? && Spells(Text(sh), Spans(sh)[0], sh.before.text)
  {
    hide Lexeme;
    SpanCount(sh);
    if Kind(sh) == PropEqual {
      SpanCount(sh.before);
      assert Spells(Text(sh.before), Spans(sh.before)[0], sh.before.text);
    }
  }

  lemma PropertySlots(sh: Shape)
    requires WellFormed(sh) && Kind(sh) == PropValue
    ensures IsProperty(sh) && |Spans(sh)| == 2
    ensures Spells(Text(sh), Spans(sh)[0], sh.before.before.text) && Spells(Text(sh), Spans(sh)[1], sh.text)
  {
    hide Lexeme;
    PropertyTokens(sh);
    SlotTexts(sh.before);
  }

  lemma ReferenceSlots(sh: Shape)
    requires WellFormed(sh) && Kind(sh) == EnvCloser
    ensures IsReference(sh) && |Spans(sh)| == 2
    ensures Spells(Text(sh), Spans(sh)[0], sh.before.before.before.before.before.text)
    ensures Spans(sh)[1] == Token(|Text(sh.before.before.before.before)|, 3 + |sh.before.text|)
    ensures |Text(sh.before.before.before.before)| + 2 + |sh.before.text| <= |Text(sh)|
  {
    hide Lexeme, MayFollow, Blanks, WellFormed;
    ReferenceTokens(sh);
    ReferenceText(sh);
    Unfold(sh, EnvCloser);
    Unfold(sh.before, EnvKey);
    Unfold(sh.before.before, EnvOpener);
    Unfold(sh.before.before.before, EnvDollar);
    var name := sh.before;
    var brace := name.before;
    var dollar := brace.before;
    SlotTexts(dollar.before);
    assert Spans(dollar) == [Spans(dollar.before)[0], Token(|Text(dollar.before)|, 1)];
    assert Spans(brace) == [Spans(dollar)[0], Spans(dollar)[1].(len := TokenLength(brace))];
    assert Spans(name) == [Spans(dollar)[0], Spans(dollar)[1].(len := TokenLength(name))];
    assert Spans(sh) == [Spans(dollar)[0], Spans(dollar)[1].(len := TokenLength(sh))];
  }

  /** The slot that entering a state opens. */
  ghost function Opened(sh: Shape, next: State): seq<Token> {
    if next != Kind(sh) && Opens(next) then [Token(|Text(sh)|, 0)] else []
  }

  /** Opening a slot if needed and then counting one character gives the slots after the step. */
  lemma CountedSpans(sh: Shape, next: State)
    requires WellFormed(sh) && (MayFollow(Kind(sh), next) || (next == Kind(sh) && HasToken(next)))
    ensures HasToken(next) ==>
      SpansAfter(sh, next) == SetLast(Spans(sh) + Opened(sh, next), LengthAfter(sh, next))
    ensures !HasToken(next) ==> !Opens(next) && SpansAfter(sh, next) == Spans(sh)
  {
    hide Spans, Text, WellFormed, TokenLength;
    SpanCount(sh);
    if HasToken(Kind(sh)) { SpanLength(sh); }
    assert Spans(sh) + [] == Spans(sh);
  }

  /** When a step from sh into next is taken. */
  ghost predicate Taken(sh: Shape, next: State, env: map<string, string>) {
    && next != Error
    && (next == Kind(sh) ==> sh.Then? && sh.gap == "")
    && (next == Endline ==> Defined(sh, env))
    && (HasToken(next) ==> LengthAfter(sh, next) < MAX_TOKEN_LEN)
  }

  ghost function Delivered(sh: Shape, next: State, env: map<string, string>): seq<Call>
    requires WellFormed(sh) && (next == Endline ==> Defined(sh, env))
  {
    if next == SectionCloser && sh.Then? then [SectionDefined(sh.text)]
    else if next == Endline && Kind(sh) != SectionCloser then Calls(sh, env)
    else []
  }

  lemma DeliveredNothing(sh: Shape, next: State, env: map<string, string>)
    requires WellFormed(sh) && next == Kind(sh) && next in {SectionName, PropKey, PropValue, EnvKey}
    ensures Delivered(sh, next, env) == []
  {
  }

  /** No callback runs when the state that is left has no token, or the state entered has one. */
  lemma NothingDelivered(sh: Shape, next: State, env: map<string, string>)
    requires WellFormed(sh) && (MayFollow(Kind(sh), next) || (next == Endline && Complete(sh)))
    requires HasToken(next) || !HasToken(Kind(sh))
    ensures (next == Endline ==> Defined(sh, env)) && Delivered(sh, next, env) == []
  {
    hide WellFormed;
    if Kind(sh) != EnvCloser { EndCalls(sh, env); }
  }

  lemma SpellsReferenced(sh: Shape)
    requires IsReference(sh)
    ensures Spells(Text(sh), Token(|Text(sh.before.before.before.before)| + 2, |sh.before.text|), ReferencedName(sh))
  {
    hide Text, TokenLength;
    ReferenceText(sh);
  }

  lemma SpellsPrefix(text: string, line: string, t: Token, s: string)
    requires |text| <= |line| && line[..|text|] == text && Spells(text, t, s)
    ensures Spells(line, t, s)
  {
    assert line[t.col..t.col + t.len] == text[t.col..t.col + t.len];
  }

  lemma EndCalls(sh: Shape, env: map<string, string>)
    requires WellFormed(sh) && Kind(sh) != EnvCloser
    ensures Defined(sh, env) && (Kind(sh) == Init ==> Calls(sh, env) == [])
  {
  }

  ghost function Used(tokens: seq<Token>, n: nat): seq<Token> {
    if n <= |tokens| then tokens[..n] else tokens
  }

  lemma UsedLast(tokens: seq<Token>, n: nat)
    requires n <= |tokens|
    ensures |Used(tokens, n)| == n && (n > 0 ==> Used(tokens, n)[n - 1] == tokens[n - 1])
  {
  }

  lemma UsedBump(tokens: seq<Token>, n: nat)
    requires 0 < n <= |tokens|
    ensures var t := tokens[n - 1];
            Used(tokens[n - 1 := Token(t.col, t.len + 1)], n) == SetLast(Used(tokens, n), t.len + 1)
  {
  }

  /** Which steps open, keep or close a token. */
  lemma TokenKinds(kind: State, next: State)
    requires MayFollow(kind, next) || next == Endline
    ensures Opens(next) ==> HasToken(next) && next !in {kind, Endline, SectionCloser} && Slots(kind) < 2
    ensures next in {EnvOpener, EnvKey, EnvCloser} ==> HasToken(next) && HasToken(kind) && !Opens(next) && next != kind
    ensures !Opens(next) && next !in {EnvOpener, EnvKey, EnvCloser} ==> !HasToken(next)
    ensures next == SectionCloser <==> kind == SectionName && next != Endline
    ensures kind in {PropValue, EnvCloser} ==> next == Endline && HasToken(kind)
    ensures kind == SectionName ==> HasToken(kind)
    ensures MayFollow(kind, next) ==> next != Endline
  {
  }

  lemma EmptyLine()
    ensures WellFormed(Lead("")) && Text(Lead("")) == "" && Decompose("") == Some(Lead(""))
    ensures Spans(Lead("")) == [] && CallsBeforeEnd(Lead("")) == []
  {
  }

  /** One turn of the loop of parse_line on the decomposition. */
  lemma DecomposeNext(line: string, n: nat, sh: Shape)
    requires n < |line| && Decompose(line[..n]) == Some(sh)
    ensures Decompose(line[..n + 1]) == Extend(sh, line[n])
    ensures Extend(sh, line[n]).Some? ==>
      WellFormed(Extend(sh, line[n]).value) && Text(Extend(sh, line[n]).value) == line[..n + 1]
  {
    assert line[..n + 1][..n] == line[..n];
    if Extend(sh, line[n]).Some? { DecomposeSound(line[..n + 1]); }
  }

  lemma NotInGrammar(line: string, n: nat)
    requires n <= |line| && Decompose(line[..n]).None?
    ensures forall sh | WellFormed(sh) :: Text(sh) != line
  {
    forall sh | WellFormed(sh) ensures Text(sh) != line {
      if Text(sh) == line {
        DecomposeComplete(sh);
        DecomposePrefix(line, n);
      }
    }
  }

  /** A blank changes nothing but the gap. */
  lemma SpacedHolds(sh: Shape, c: char)
    requires WellFormed(sh) && IsSpace(c)
    ensures Extend(sh, c) == Some(Spaced(sh, c)) && Spans(Spaced(sh, c)) == Spans(sh) && Kind(Spaced(sh, c)) == Kind(sh)
    ensures CallsBeforeEnd(Spaced(sh, c)) == CallsBeforeEnd(sh)
  {
  }

  /** On a character of the line the parser goes on exactly when the decomposition does. */
  lemma StepDecides(sh: Shape, c: char, env: map<string, string>)
    requires WellFormed(sh) && !IsSpace(c) && c != '\0'
    ensures Taken(sh, NextState(Kind(sh), c), env) <==> Extend(sh, c).Some?
    ensures Extend(sh, c).Some? ==>
      CallsBeforeEnd(sh) == [] && Delivered(sh, NextState(Kind(sh), c), env) == CallsBeforeEnd(Extend(sh, c).value)
  {
    hide Extend, NextState, WellFormed;
    LengthDecides(sh, c);
    TableKinds(Kind(sh), c);
    if Extend(sh, c).Some? { ExtendKind(sh, c); }
  }

  /** At the end of the line the parser accepts exactly complete lines. */
  lemma EndDecides(sh: Shape, env: map<string, string>)
    requires WellFormed(sh)
    ensures Taken(sh, NextState(Kind(sh), '\0'), env) <==> Complete(sh) && Defined(sh, env)
    ensures Complete(sh) && Defined(sh, env) ==>
      CallsBeforeEnd(sh) + Delivered(sh, NextState(Kind(sh), '\0'), env) == Calls(sh, env)
  {
    hide NextState, IsReference;
    TableKinds(Kind(sh), '\0');
  }

  class Parser {
    var state: State
    var colNum: nat
    var curTokenIdx: nat
    var tokens: seq<Token>
    var curToken: Option<nat>
    var lineBuf: string
    var endOfToken: bool
    var calls: seq<Call>

    ghost predicate Valid()
      reads this
    {
      |tokens| == NUM_TOKENS && (curToken.Some? ==> curToken.value < NUM_TOKENS)
    }

    /** The fields agree with the decomposition of what has been read. */
    ghost predicate Holds(sh: Shape)
      reads this
    {
      && Valid() && state == Kind(sh)
      && curTokenIdx == |Spans(sh)| <= NUM_TOKENS && Used(tokens, curTokenIdx) == Spans(sh)
      && (sh.Then? ==> endOfToken == (sh.gap != ""))
      && (sh.Then? ==> curToken == if HasToken(Kind(sh)) && curTokenIdx > 0 then Some(curTokenIdx - 1) else None)
    }

    ghost predicate At(sh: Shape)
      reads this
    {
      colNum == |Text(sh)| <= |lineBuf| && lineBuf[..colNum] == Text(sh)
    }

    /** The text of a token slot. */
    function Value(t: Token): string
      reads this
    {
      if t.col + t.len <= |lineBuf| then lineBuf[t.col..t.col + t.len] else ""
    }

    /** The name inside a reference ${name}: what is left without its first two and its last character. */
    function Name(t: Token): string
      requires t.len >= 3
      reads this
    {
      Value(Token(t.col + 2, t.len - 3))
    }

    method OpenToken()
      requires Valid() && curTokenIdx < NUM_TOKENS
      modifies this`curTokenIdx, this`tokens, this`curToken
      ensures Valid() && curTokenIdx == old(curTokenIdx) + 1 && curToken == Some(old(curTokenIdx))
      ensures tokens[curTokenIdx - 1].len == 0
      ensures Used(tokens, curTokenIdx) == Used(old(tokens), old(curTokenIdx)) + [Token(colNum, 0)]
    {
      curToken := Some(curTokenIdx);
      tokens := tokens[curTokenIdx := Token(colNum, 0)];
      curTokenIdx := curTokenIdx + 1;
    }

    /** The fields on the way from sh into next, before the character is counted. */
    ghost predicate Prepared(sh: Shape, next: State)
      reads this
    {
      && Valid() && !endOfToken && curTokenIdx <= NUM_TOKENS
      && curToken == (if HasToken(next) && curTokenIdx > 0 then Some(curTokenIdx - 1) else None)
      && (next != Endline ==> Used(tokens, curTokenIdx) == Spans(sh) + Opened(sh, next))
      && (HasToken(next) ==> curTokenIdx > 0 && tokens[curTokenIdx - 1].len + 1 == LengthAfter(sh, next))
    }

    /** The fields once a step from sh into next has been taken. */
    ghost predicate Counted(sh: Shape, next: State)
      reads this
    {
      && Valid() && !endOfToken
      && curTokenIdx == |SpansAfter(sh, next)| <= NUM_TOKENS && Used(tokens, curTokenIdx) == SpansAfter(sh, next)
      && curToken == if HasToken(next) && curTokenIdx > 0 then Some(curTokenIdx - 1) else None
    }

    lemma SameState(sh: Shape)
      requires WellFormed(sh) && Holds(sh) && sh.Then? && sh.gap == "" && HasToken(sh.kind)
      ensures Prepared(sh, sh.kind)
    {
      hide WellFormed, Spans, Text, TokenLength;
      SpanLength(sh);
      UsedLast(tokens, curTokenIdx);
      assert Spans(sh) + [] == Spans(sh);
    }

    /** The length count at the end of parse_char. */
    method CountChar(ghost sh: Shape, ghost next: State) returns (ok: bool)
      requires WellFormed(sh) && Prepared(sh, next)
      requires next == Endline || MayFollow(Kind(sh), next) || (next == Kind(sh) && HasToken(next))
      modifies this`tokens
      ensures Valid() && (ok <==> (HasToken(next) ==> LengthAfter(sh, next) < MAX_TOKEN_LEN))
      ensures next != Endline ==> Counted(sh, next)
    {
      hide WellFormed, Text, Spans, TokenLength, Opens, MayFollow, LengthAfter, SpansAfter, Used, SetLast, HasToken;
      if next != Endline { CountedSpans(sh, next); }
      UsedLast(tokens, curTokenIdx);
      if curToken.None? { return true; }
      var t := tokens[curToken.value];
      UsedBump(tokens, curTokenIdx);
      tokens := tokens[curToken.value := Token(t.col, t.len + 1)];
      UsedLast(tokens, curTokenIdx);
      return t.len + 1 < MAX_TOKEN_LEN;
    }

    /** The callback of a section is given its name. */
    method OnSectionDefined(cur: nat, ghost sh: Shape)
      requires WellFormed(sh) && Holds(sh) && At(sh) && curToken == Some(cur) && Kind(sh) == SectionName
      modifies this`calls
      ensures calls == old(calls) + [SectionDefined(sh.text)]
    {
      hide WellFormed, Spans, Text;
      SlotTexts(sh);
      SpellsPrefix(Text(sh), lineBuf, tokens[cur], sh.text);
      calls := calls + [SectionDefined(Value(tokens[cur]))];
    }

    /** The callback of a property is given the two adjacent tokens of its key and value. */
    method OnPropertyDefined(cur: nat, env: map<string, string>, ghost sh: Shape)
      requires WellFormed(sh) && Holds(sh) && At(sh) && curToken == Some(cur) && Kind(sh) == PropValue
      modifies this`calls
      ensures Defined(sh, env) && calls == old(calls) + Calls(sh, env)
    {
      hide WellFormed, Spans, Text;
      PropertySlots(sh);
      SpellsPrefix(Text(sh), lineBuf, tokens[cur - 1], sh.before.before.text);
      SpellsPrefix(Text(sh), lineBuf, tokens[cur], sh.text);
      calls := calls + [PropertyDefined(Value(tokens[cur - 1]), Value(tokens[cur]))];
    }

    /** A reference is replaced by the value of the variable that is cut out of it. */
    method OnEnvRefered(cur: nat, env: map<string, string>, ghost sh: Shape) returns (ok: bool)
      requires WellFormed(sh) && Holds(sh) && At(sh) && curToken == Some(cur) && Kind(sh) == EnvCloser
      modifies this`calls
      ensures ok == Defined(sh, env) && (ok ==> calls == old(calls) + Calls(sh, env))
    {
      hide WellFormed, Spans, Text, TokenLength, ReferencedName;
      ReferenceSlots(sh);
      SpellsReferenced(sh);
      SpellsPrefix(Text(sh), lineBuf, tokens[cur - 1], sh.before.before.before.before.before.text);
      var key := Name(tokens[cur]);
      SpellsPrefix(Text(sh), lineBuf, Token(tokens[cur].col + 2, tokens[cur].len - 3), ReferencedName(sh));
      if key !in env { return false; }
      calls := calls + [PropertyDefined(Value(tokens[cur - 1]), env[key])];
      return true;
    }

    /** The callbacks, chosen by the state that is left. */
    method Deliver(cur: nat, next: State, env: map<string, string>, ghost sh: Shape) returns (ok: bool)
      requires WellFormed(sh) && Holds(sh) && At(sh) && curToken == Some(cur)
      requires MayFollow(Kind(sh), next) || (next == Endline && Complete(sh))
      requires !HasToken(next)
      modifies this`calls
      ensures ok <==> (next == Endline ==> Defined(sh, env))
      ensures ok ==> calls == old(calls) + Delivered(sh, next, env)
    {
      hide WellFormed, Spans, Text, Calls, Defined, IsReference;
      if Kind(sh) != EnvCloser { EndCalls(sh, env); }
      assert calls + [] == calls;
      match state
      case SectionName => OnSectionDefined(cur, sh); return true;
      case PropValue => OnPropertyDefined(cur, env, sh); return true;
      case EnvCloser => ok := OnEnvRefered(cur, env, sh); return;
      case _ => return true;
    }

    /** The switch of parse_char on entering another state: a token is opened, kept or closed. */
    method ChangeState(next: State, env: map<string, string>, ghost sh: Shape) returns (ok: bool)
      requires WellFormed(sh) && Holds(sh) && At(sh)
      requires MayFollow(Kind(sh), next) || (next == Endline && Complete(sh))
      modifies this`curTokenIdx, this`tokens, this`curToken, this`endOfToken, this`calls
      ensures Valid() && (ok <==> next == Endline ==> Defined(sh, env))
      ensures ok ==> Prepared(sh, next)
      ensures ok ==> calls == old(calls) + Delivered(sh, next, env)
    {
      hide WellFormed, Spans, Text, Defined, Used, MayFollow, Opens, HasToken, Slots, Delivered, TokenLength,
        LengthAfter;
      LengthAfterIs(sh, next);
      TokenKinds(Kind(sh), next);
      SpanCount(sh);
      UsedLast(tokens, curTokenIdx);
      if HasToken(Kind(sh)) { SpanLength(sh); }
      if HasToken(next) || !HasToken(Kind(sh)) { NothingDelivered(sh, next, env); }
      if Opens(next) {
        OpenToken();
      } else if next !in {EnvOpener, EnvKey, EnvCloser} && curToken.Some? {
        ok := Deliver(curToken.value, next, env, sh);
        if !ok { return; }
        curToken := None;
      }
      endOfToken := false;
      return true;
    }

    /** parse_char: exactly when the step is taken, and what it leaves and delivers. */
    method ParseChar(c: char, env: map<string, string>, ghost sh: Shape) returns (res: Result)
      requires WellFormed(sh) && Holds(sh) && At(sh)
      modifies this`state, this`curTokenIdx, this`tokens, this`curToken, this`endOfToken, this`calls
      ensures Valid() && (res.Success? <==> Taken(sh, NextState(Kind(sh), c), env))
      ensures res.Success? && c != '\0' ==> Counted(sh, state) && state == NextState(Kind(sh), c)
      ensures res.Success? ==> calls == old(calls) + Delivered(sh, NextState(Kind(sh), c), env)
    {
      hide WellFormed, Text, Spans, Lexeme, NextState, Calls, Defined, IsReference, SpansAfter, Slots, MayFollow,
        Delivered, Opens;
      TableKinds(Kind(sh), c);
      NeverInit(Kind(sh), c);
      var newState := NextState(state, c);
      if newState == Error { return SyntaxError; }
      if newState != state {
        var ok := ChangeState(newState, env, sh);
        if !ok { return UndefinedEnv; }
      } else if endOfToken {
        return SyntaxError;
      } else {
        SameState(sh);
        DeliveredNothing(sh, newState, env);
      }
      var fits := CountChar(sh, newState);
      if !fits { return LongToken; }
      state := newState;
      return Success;
    }

    lemma CountedHolds(sh: Shape, c: char)
      requires WellFormed(sh) && !IsSpace(c) && Extend(sh, c).Some?
      requires state == NextState(Kind(sh), c) && Counted(sh, state)
      ensures Holds(Extend(sh, c).value)
    {
      hide WellFormed, Text, Spans, NextState, Extend, SpansAfter, Used;
      SpansExtend(sh, c);
      ExtendKind(sh, c);
    }

    /** parse_line, from whatever state the previous line left: a line is accepted exactly when it is
        in the grammar and its reference, if any, is defined, and the callbacks get its tokens. */
    method ParseLine(line: string, env: map<string, string>) returns (ok: bool)
      requires Valid() && forall i | 0 <= i < |line| :: '\0' < line[i] < '\U{ff}'
      modifies this
      ensures Valid() && (ok ==> InGrammar(line))
      ensures forall sh | WellFormed(sh) && Complete(sh) && Text(sh) == line ::
                ok == Defined(sh, env) && (ok ==> calls == old(calls) + Calls(sh, env))
    {
      hide WellFormed, Text, Spans, NextState, Extend, Calls, Defined, Counted, Delivered, Decompose, Used, HasToken,
        Complete, CallsBeforeEnd, Taken, IsSpace;
      lineBuf, state, colNum, curTokenIdx := line, Init, 0, 0;
      ghost var sh := Lead("");
      EmptyLine();
      UsedLast(tokens, 0);
      while colNum < |lineBuf|
        invariant Valid() && lineBuf == line && colNum <= |line|
        invariant WellFormed(sh) && Holds(sh) && At(sh) && Decompose(line[..colNum]) == Some(sh)
        invariant calls == old(calls) + CallsBeforeEnd(sh)
      {
        var c := lineBuf[colNum];
        DecomposeNext(line, colNum, sh);
        if IsSpace(c) {
          endOfToken := true;
          SpacedHolds(sh, c);
          sh := Spaced(sh, c);
        } else {
          var res := ParseChar(c, env, sh);
          StepDecides(sh, c, env);
          if !res.Success? {
            NotInGrammar(line, colNum + 1);
            return false;
          }
          CountedHolds(sh, c);
          sh := Extend(sh, c).value;
        }
        colNum := colNum + 1;
      }
      assert line[..colNum] == line;
      var res := ParseChar('\0', env, sh);
      EndDecides(sh, env);
      forall other | WellFormed(other) && Text(other) == line ensures other == sh {
        DecomposeComplete(other);
      }
      return res.Success?;
    }
  }
}
