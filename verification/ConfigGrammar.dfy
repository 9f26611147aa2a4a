/** The lines of an nbio parameter file: their grammar, the state table, and the decomposition of a
    line into tokens that the table computes. */
module ConfigGrammar {
  import opened Common

  const MAX_TOKEN_LEN: nat := 128

  datatype State =
    | Error | Init | SectionOpener | SectionName | SectionCloser | PropKey | PropEqual | PropValue
    | EnvDollar | EnvOpener | EnvKey | EnvCloser | Endline

  predicate IsSpace(c: char) { c == ' ' || '\t' <= c <= '\r' }
  predicate Letter(c: char) { 'a' <= c <= 'z' || 'A' <= c <= 'Z' }
  predicate NameChar(c: char) { Letter(c) || '0' <= c <= '9' || c == '_' }
  predicate ValueFirst(c: char) { NameChar(c) || c == '.' || c == ':' || c == '/' || c == '-' }
  predicate ValueChar(c: char) { ValueFirst(c) || c == ',' || c == '%' }

  /** parser_state_table, for every byte but 255, which lies past the end of a row. */
  function NextState(s: State, c: char): (next: State) {
    match s
    case Init =>
      if c == '\0' then Endline else if c == '[' then SectionOpener else if Letter(c) then PropKey else Error
    case SectionOpener => if NameChar(c) then SectionName else Error
    case SectionName => if NameChar(c) then SectionName else if c == ']' then SectionCloser else Error
    case SectionCloser => if c == '\0' then Endline else Error
    case PropKey => if NameChar(c) then PropKey else if c == '=' then PropEqual else Error
    case PropEqual => if ValueFirst(c) then PropValue else if c == '$' then EnvDollar else Error
    case PropValue => if c == '\0' then Endline else if ValueChar(c) then PropValue else Error
    case EnvDollar => if c == '{' then EnvOpener else Error
    case EnvOpener => if Letter(c) || c == '_' then EnvKey else Error
    case EnvKey => if NameChar(c) then EnvKey else if c == '}' then EnvCloser else Error
    case EnvCloser => if c == '\0' then Endline else Error
    case _ => Error
  }

  /** The character classes in code points: blanks, then letters, digits and underscore, and what a value
      may hold besides: point, colon, slash and hyphen, and after its first character comma and percent. */
  lemma CharClasses(c: char)
    ensures IsSpace(c) <==> c as int in {9, 10, 11, 12, 13, 32}
    ensures Letter(c) <==> 65 <= c as int <= 90 || 97 <= c as int <= 122
    ensures NameChar(c) <==> Letter(c) || 48 <= c as int <= 57 || c as int == 95
    ensures ValueFirst(c) <==> NameChar(c) || c as int in {45, 46, 47, 58}
    ensures ValueChar(c) <==> ValueFirst(c) || c as int in {37, 44}
  {
  }

  /** A line, or the beginning of one: leading blanks, then tokens, each with the blanks after it. */
  datatype Shape =
    | Lead(blanks: string)
    | Then(before: Shape, kind: State, text: string, gap: string)

  ghost predicate Blanks(s: string) {
    forall i | 0 <= i < |s| :: IsSpace(s[i])
  }

  ghost predicate NameChars(s: string) {
    forall i | 0 <= i < |s| :: NameChar(s[i])
  }

  /** What a token of each kind may look like. */
  ghost predicate Lexeme(kind: State, text: string) {
    match kind
    case SectionOpener => text == "["
    case SectionName => text != "" && NameChars(text)
    case SectionCloser => text == "]"
    case PropKey => text != "" && Letter(text[0]) && NameChars(text)
    case PropEqual => text == "="
    case PropValue => text != "" && ValueFirst(text[0]) && forall i | 0 <= i < |text| :: ValueChar(text[i])
    case EnvDollar => text == "$"
    case EnvOpener => text == "{"
    case EnvKey => text != "" && (Letter(text[0]) || text[0] == '_') && NameChars(text)
    case EnvCloser => text == "}"
    case _ => false
  }

  /** Which token may come after which. */
  predicate MayFollow(kind: State, next: State) {
    match next
    case SectionOpener => kind == Init
    case SectionName => kind == SectionOpener
    case SectionCloser => kind == SectionName
    case PropKey => kind == Init
    case PropEqual => kind == PropKey
    case PropValue => kind == PropEqual
    case EnvDollar => kind == PropEqual
    case EnvOpener => kind == EnvDollar
    case EnvKey => kind == EnvOpener
    case EnvCloser => kind == EnvKey
    case _ => false
  }

  function Kind(sh: Shape): State {
    if sh.Lead? then Init else sh.kind
  }

  /** The length the parser counts for the last token: a reference is one token, counted without its blanks. */
  function TokenLength(sh: Shape): nat {
    match sh
    case Lead(_) => 0
    case Then(before, kind, text, _) =>
      if kind == EnvOpener || kind == EnvKey || kind == EnvCloser then TokenLength(before) + |text| else |text|
  }

  ghost predicate WellFormed(sh: Shape) {
    match sh
    case Lead(blanks) => Blanks(blanks)
    case Then(before, kind, text, gap) =>
      && WellFormed(before) && MayFollow(Kind(before), kind)
      && Lexeme(kind, text) && Blanks(gap) && TokenLength(sh) < MAX_TOKEN_LEN
  }

  function Text(sh: Shape): string {
    match sh
    case Lead(blanks) => blanks
    case Then(before, _, text, gap) => Text(before) + text + gap
  }

  /** A whole line: blank, [name], key=value or key=${name}. */
  ghost predicate Complete(sh: Shape) {
    Kind(sh) in {Init, SectionCloser, PropValue, EnvCloser}
  }

  ghost predicate InGrammar(line: string) {
    exists sh :: WellFormed(sh) && Complete(sh) && Text(sh) == line
  }

  // ---------- the decomposition the table computes ----------

  function Spaced(sh: Shape, c: char): Shape {
    if sh.Lead? then Lead(sh.blanks + [c]) else sh.(gap := sh.gap + [c])
  }

  function Bounded(sh: Shape): Option<Shape> {
    if TokenLength(sh) < MAX_TOKEN_LEN then Some(sh) else None
  }

  /** One more character, if the table lets it through. */
  function Extend(sh: Shape, c: char): Option<Shape> {
    if IsSpace(c) then Some(Spaced(sh, c))
    else
      var next := NextState(Kind(sh), c);
      if next == Error || next == Endline then None
      else if sh.Then? && next == sh.kind then
        if sh.gap == "" then Bounded(sh.(text := sh.text + [c])) else None
      else Bounded(Then(sh, next, [c], ""))
  }

  function Decompose(line: string): Option<Shape> {
    if line == "" then Some(Lead(""))
    else match Decompose(line[..|line| - 1])
      case None => None
      case Some(sh) => Extend(sh, line[|line| - 1])
  }

  /** A row of the table loops on exactly the characters that lengthen its token. */
  lemma TableGrows(kind: State, text: string, c: char)
    requires text != "" && Lexeme(kind, text)
    ensures Lexeme(kind, text + [c]) <==> NextState(kind, c) == kind
  {
    var more := text + [c];
    assert more[|text|] == c && more[0] == text[0] && |more| > 1;
    assert forall i | 0 <= i < |text| :: more[i] == text[i];
  }

  /** A row of the table moves on exactly at the first characters of the tokens that may come next. */
  lemma TableStarts(kind: State, next: State, c: char)
    requires next != Error && next != Endline && next != kind
    ensures MayFollow(kind, next) && Lexeme(next, [c]) <==> NextState(kind, c) == next
  {
    assert [c][0] == c;
    assert ([c] == "[" <==> c == '[') && ([c] == "]" <==> c == ']') && ([c] == "=" <==> c == '=');
    assert ([c] == "$" <==> c == '$') && ([c] == "{" <==> c == '{') && ([c] == "}" <==> c == '}');
  }

  lemma NeverInit(kind: State, c: char)
    ensures NextState(kind, c) != Init
  {
  }

  lemma NoBlankTokens(kind: State, text: string, i: nat)
    requires Lexeme(kind, text) && i < |text|
    ensures !IsSpace(text[i]) && kind != Error && kind != Endline && kind != Init
  {
  }

  lemma NonEmpty(kind: State, text: string)
    requires Lexeme(kind, text)
    ensures text != "" && kind != Init
  {
  }

  lemma LexemePrefix(kind: State, text: string, c: char)
    requires text != "" && Lexeme(kind, text + [c])
    ensures Lexeme(kind, text)
  {
    var more := text + [c];
    assert |more| > 1 && forall i | 0 <= i < |text| :: more[i] == text[i];
  }

  lemma NotSelf(kind: State, next: State)
    requires MayFollow(kind, next)
    ensures kind != next
  {
  }

  lemma ExtendSound(sh: Shape, c: char)
    requires WellFormed(sh) && Extend(sh, c).Some?
    ensures WellFormed(Extend(sh, c).value) && Text(Extend(sh, c).value) == Text(sh) + [c]
  {
    hide NextState, Lexeme, MayFollow;
    var next := NextState(Kind(sh), c);
    NeverInit(Kind(sh), c);
    if next != Error && next != Endline && next != Kind(sh) { TableStarts(Kind(sh), next, c); }
    if sh.Then? { NonEmpty(sh.kind, sh.text); TableGrows(sh.kind, sh.text, c); }
    if sh.Then? && !IsSpace(c) && NextState(sh.kind, c) == sh.kind {
      assert Text(sh.before) + (sh.text + [c]) + "" == Text(sh) + [c];
    }
  }

  /** The decomposition of a line is one of the grammar. */
  lemma {:induction false} DecomposeSound(line: string)
    requires Decompose(line).Some?
    ensures WellFormed(Decompose(line).value) && Text(Decompose(line).value) == line
  {
    if line != "" {
      var n := |line| - 1;
      DecomposeSound(line[..n]);
      ExtendSound(Decompose(line[..n]).value, line[n]);
      assert line == line[..n] + [line[n]];
    }
  }

  /** The shape before its last character, and that character. */
  function Shrink(sh: Shape): (Shape, char)
    requires sh.Lead? ==> sh.blanks != ""
    requires sh.Then? ==> sh.text != ""
  {
    match sh
    case Lead(blanks) => (Lead(blanks[..|blanks| - 1]), blanks[|blanks| - 1])
    case Then(before, kind, text, gap) =>
      if gap != "" then (sh.(gap := gap[..|gap| - 1]), gap[|gap| - 1])
      else if |text| > 1 then (sh.(text := text[..|text| - 1]), text[|text| - 1])
      else (before, text[0])
  }

  lemma ShrinkGap(sh: Shape)
    requires WellFormed(sh) && if sh.Lead? then sh.blanks != "" else sh.text != "" && sh.gap != ""
    ensures WellFormed(Shrink(sh).0) && Extend(Shrink(sh).0, Shrink(sh).1) == Some(sh)
  {
    hide NextState, Lexeme, MayFollow;
    var s := if sh.Lead? then sh.blanks else sh.gap;
    assert s == s[..|s| - 1] + [s[|s| - 1]];
  }

  lemma ShrinkText(sh: Shape)
    requires WellFormed(sh) && sh.Then? && sh.gap == "" && |sh.text| > 1
    ensures WellFormed(Shrink(sh).0) && Extend(Shrink(sh).0, Shrink(sh).1) == Some(sh)
  {
    hide NextState, Lexeme, MayFollow, IsSpace;
    var less, c := sh.text[..|sh.text| - 1], sh.text[|sh.text| - 1];
    assert sh.text == less + [c];
    LexemePrefix(sh.kind, less, c);
    TableGrows(sh.kind, less, c);
    NoBlankTokens(sh.kind, sh.text, |sh.text| - 1);
  }

  lemma ShrinkToken(sh: Shape)
    requires WellFormed(sh) && sh.Then? && sh.gap == "" && |sh.text| == 1
    ensures WellFormed(Shrink(sh).0) && Extend(Shrink(sh).0, Shrink(sh).1) == Some(sh)
  {
    hide NextState, Lexeme, MayFollow, IsSpace;
    assert sh.text == [sh.text[0]];
    NoBlankTokens(sh.kind, sh.text, 0);
    NotSelf(Kind(sh.before), sh.kind);
    TableStarts(Kind(sh.before), sh.kind, sh.text[0]);
  }

  lemma ExtendShrink(sh: Shape)
    requires WellFormed(sh) && sh != Lead("")
    ensures (sh.Then? ==> sh.text != "") && WellFormed(Shrink(sh).0) && Extend(Shrink(sh).0, Shrink(sh).1) == Some(sh)
  {
    hide Extend, Lexeme, MayFollow, Shrink;
    if sh.Then? { NonEmpty(sh.kind, sh.text); }
    if sh.Lead? || sh.gap != "" { ShrinkGap(sh); }
    else if |sh.text| > 1 { ShrinkText(sh); }
    else { ShrinkToken(sh); }
  }

  /** Every decomposition in the grammar is the one the table finds, so it is the only one. */
  lemma {:induction false} DecomposeComplete(sh: Shape)
    requires WellFormed(sh)
    ensures Decompose(Text(sh)) == Some(sh)
    decreases |Text(sh)|
  {
    if sh != Lead("") {
      var (less, c) := Shrink(sh);
      ExtendShrink(sh);
      ExtendSound(less, c);
      assert Text(sh)[..|Text(sh)| - 1] == Text(less);
      DecomposeComplete(less);
    }
  }

  lemma DecomposeUnique(a: Shape, b: Shape)
    requires WellFormed(a) && WellFormed(b) && Text(a) == Text(b)
    ensures a == b
  {
    DecomposeComplete(a);
    DecomposeComplete(b);
  }

  lemma {:induction false} DecomposePrefix(line: string, n: nat)
    requires n <= |line| && Decompose(line).Some?
    ensures Decompose(line[..n]).Some?
    decreases |line|
  {
    if n == |line| {
      assert line[..n] == line;
    } else {
      DecomposePrefix(line[..|line| - 1], n);
      assert line[..|line| - 1][..n] == line[..n];
    }
  }

  // ---------- the grammar written out ----------

  lemma Unfold(sh: Shape, kind: State)
    requires WellFormed(sh) && Kind(sh) == kind && kind != Init
    ensures sh.Then? && WellFormed(sh.before) && MayFollow(Kind(sh.before), kind)
    ensures Lexeme(kind, sh.text) && Blanks(sh.gap) && (Kind(sh.before) == Init ==> sh.before.Lead?)
  {
  }

  function SectionLine(a: string, b: string, name: string, c: string, d: string): Shape {
    Then(Then(Then(Lead(a), SectionOpener, "[", b), SectionName, name, c), SectionCloser, "]", d)
  }

  function KeyEquals(a: string, key: string, b: string, c: string): Shape {
    Then(Then(Lead(a), PropKey, key, b), PropEqual, "=", c)
  }

  function PropertyLine(a: string, key: string, b: string, c: string, value: string, d: string): Shape {
    Then(KeyEquals(a, key, b, c), PropValue, value, d)
  }

  function ReferenceLine(start: Shape, b: string, c: string, name: string, d: string, e: string): Shape {
    Then(Then(Then(Then(start, EnvDollar, "$", b), EnvOpener, "{", c), EnvKey, name, d), EnvCloser, "}", e)
  }

  /** [name], with blanks anywhere but inside the name. */
  lemma SectionLines(a: string, b: string, name: string, c: string, d: string)
    requires Blanks(a) && Blanks(b) && Blanks(c) && Blanks(d)
    requires name != "" && NameChars(name) && |name| < MAX_TOKEN_LEN
    ensures InGrammar(a + "[" + b + name + c + "]" + d)
  {
    var open := Then(Lead(a), SectionOpener, "[", b);
    var named := Then(open, SectionName, name, c);
    assert Kind(Lead(a)) == Init && TokenLength(open) == 1 && TokenLength(named) == |name|;
    assert WellFormed(Lead(a)) && WellFormed(open);
    assert WellFormed(named);
    var sh := SectionLine(a, b, name, c, d);
    assert sh == Then(named, SectionCloser, "]", d);
    assert WellFormed(sh) && Complete(sh);
    assert Text(open) == a + "[" + b;
    assert Text(named) == a + "[" + b + name + c;
    assert Text(sh) == a + "[" + b + name + c + "]" + d;
  }

  lemma KeyLines(a: string, key: string, b: string, c: string)
    requires Blanks(a) && Blanks(b) && Blanks(c) && Lexeme(PropKey, key) && |key| < MAX_TOKEN_LEN
    ensures WellFormed(KeyEquals(a, key, b, c)) && Text(KeyEquals(a, key, b, c)) == a + key + b + "=" + c
  {
    assert Kind(Lead(a)) == Init && WellFormed(Lead(a)) && TokenLength(Then(Lead(a), PropKey, key, b)) == |key|;
    assert WellFormed(Then(Lead(a), PropKey, key, b));
    assert TokenLength(KeyEquals(a, key, b, c)) == 1;
    assert Text(Then(Lead(a), PropKey, key, b)) == a + key + b;
  }

  /** key=value, with blanks anywhere but inside the key and the value. */
  lemma PropertyLines(a: string, key: string, b: string, c: string, value: string, d: string)
    requires Blanks(a) && Blanks(b) && Blanks(c) && Blanks(d) && |key| < MAX_TOKEN_LEN && |value| < MAX_TOKEN_LEN
    requires Lexeme(PropKey, key) && Lexeme(PropValue, value)
    ensures InGrammar(a + key + b + "=" + c + value + d)
  {
    KeyLines(a, key, b, c);
    var sh := PropertyLine(a, key, b, c, value, d);
    assert WellFormed(sh) && Complete(sh);
    assert Text(sh) == a + key + b + "=" + c + value + d;
  }

  lemma OperationTokens()
    ensures Lexeme(PropKey, "OPERATION") && Lexeme(PropValue, "READ:70,WRITE:30")
  {
  }

  /** A line with colons and a comma in its value. */
  lemma OperationLine()
    ensures InGrammar("OPERATION=READ:70,WRITE:30")
  {
    var key, value := "OPERATION", "READ:70,WRITE:30";
    OperationTokens();
    hide Lexeme;
    PropertyLines("", key, "", "", value, "");
    assert "" + key + "" + "=" + "" + value + "" == "OPERATION=READ:70,WRITE:30";
  }

  /** key=${name}, with blanks between any two tokens, also inside the braces. */
  lemma ReferenceLines(a: string, key: string, b: string, c: string, d: string, e: string, name: string, f: string,
                       g: string)
    requires Blanks(a) && Blanks(b) && Blanks(c) && Blanks(d) && Blanks(e) && Blanks(f) && Blanks(g)
    requires Lexeme(PropKey, key) && |key| < MAX_TOKEN_LEN && Lexeme(EnvKey, name) && |name| + 3 < MAX_TOKEN_LEN
    ensures var sh := ReferenceLine(KeyEquals(a, key, b, c), d, e, name, f, g);
            && WellFormed(sh) && Complete(sh)
            && Text(sh) == a + key + b + "=" + c + ("$" + d) + ("{" + e) + (name + f) + ("}" + g)
  {
    KeyLines(a, key, b, c);
    var start := KeyEquals(a, key, b, c);
    var dollar := Then(start, EnvDollar, "$", d);
    var brace := Then(dollar, EnvOpener, "{", e);
    var named := Then(brace, EnvKey, name, f);
    var sh := Then(named, EnvCloser, "}", g);
    assert TokenLength(dollar) == 1 && TokenLength(brace) == 2 && TokenLength(named) == 2 + |name|;
    assert WellFormed(dollar);
    assert WellFormed(brace);
    assert WellFormed(named);
    assert WellFormed(sh);
    assert Text(dollar) == Text(start) + ("$" + d);
    assert Text(brace) == Text(dollar) + ("{" + e);
    assert Text(named) == Text(brace) + (name + f);
    assert Text(sh) == Text(named) + ("}" + g);
  }

  /** Nothing else is a line: a complete shape is blank, a section, a property or a reference. */
  lemma CompleteForms(sh: Shape)
    requires WellFormed(sh) && Complete(sh)
    ensures
      || sh.Lead?
      || (exists a, b, name, c, d :: sh == SectionLine(a, b, name, c, d))
      || (exists a, key, b, c, value, d :: sh == PropertyLine(a, key, b, c, value, d))
      || (exists a, key, b, c, d, e, name, f, g :: sh == ReferenceLine(KeyEquals(a, key, b, c), d, e, name, f, g))
  {
    hide WellFormed;
    match Kind(sh)
    case SectionCloser =>
      Unfold(sh, SectionCloser);
      Unfold(sh.before, SectionName);
      Unfold(sh.before.before, SectionOpener);
      assert sh == SectionLine(sh.before.before.before.blanks, sh.before.before.gap, sh.before.text, sh.before.gap,
        sh.gap);
    case PropValue =>
      Unfold(sh, PropValue);
      KeyForms(sh.before);
      var key := sh.before.before;
      assert sh == PropertyLine(key.before.blanks, key.text, key.gap, sh.before.gap, sh.text, sh.gap);
    case EnvCloser =>
      Unfold(sh, EnvCloser);
      Unfold(sh.before, EnvKey);
      Unfold(sh.before.before, EnvOpener);
      Unfold(sh.before.before.before, EnvDollar);
      var start := sh.before.before.before.before;
      KeyForms(start);
      var key := start.before;
      assert sh == ReferenceLine(KeyEquals(key.before.blanks, key.text, key.gap, start.gap),
        sh.before.before.before.gap, sh.before.before.gap, sh.before.text, sh.before.gap, sh.gap);
    case _ => InitIsLead(sh);
  }

  lemma InitIsLead(sh: Shape)
    requires WellFormed(sh) && Kind(sh) == Init
    ensures sh.Lead?
  {
  }

  lemma KeyForms(sh: Shape)
    requires WellFormed(sh) && Kind(sh) == PropEqual
    ensures sh.Then? && sh.before.Then? && sh.before.before.Lead?
    ensures sh == KeyEquals(sh.before.before.blanks, sh.before.text, sh.before.gap, sh.gap)
  {
    hide WellFormed;
    Unfold(sh, PropEqual);
    Unfold(sh.before, PropKey);
  }
}
