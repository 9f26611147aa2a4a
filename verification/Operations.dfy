/** The OPERATION property: token_split, parse_operation and the 100-slot lottery it feeds. */
module Operations {
  import opened Common

  const BIO_MAX: nat := 8

  // ---------- splitting ----------

  /** The text before the first delimiter. */
  function Head(s: string, d: char): (r: string)
    ensures |r| <= |s| && s[..|r|] == r && d !in r && (|r| < |s| ==> s[|r|] == d)
  {
    if s == "" || s[0] == d then "" else [s[0]] + Head(s[1..], d)
  }

  /** All tokens: a delimiter ends a token, and so does the end of a text that does not end in one. */
  function Split(s: string, d: char): seq<string>
    decreases |s|
  {
    if s == "" then []
    else
      var h := Head(s, d);
      [h] + (if |h| < |s| then Split(s[|h| + 1..], d) else [])
  }

  function Joined(tokens: seq<string>, d: char): string {
    if tokens == [] then "" else tokens[0] + [d] + Joined(tokens[1..], d)
  }

  lemma JoinedCons(t: string, rest: seq<string>, d: char)
    ensures Joined([t] + rest, d) == t + [d] + Joined(rest, d)
  {
    assert ([t] + rest)[1..] == rest;
  }

  lemma SplitStep(s: string, d: char)
    requires s != ""
    ensures var h := Head(s, d);
            && (|h| < |s| ==> s == h + [d] + s[|h| + 1..] && Split(s, d) == [h] + Split(s[|h| + 1..], d))
            && (|h| == |s| ==> h == s && Split(s, d) == [s] + [] && Closed(s, d) == s + [d])
  {
    var h := Head(s, d);
    if |h| == |s| {
      assert s[..|s|] == s;
      assert s[|s| - 1] in h;
    } else {
      assert s == s[..|h|] + [s[|h|]] + s[|h| + 1..];
    }
  }

  /** Nothing of the text is lost: the tokens, each with its delimiter, are the text again. */
  lemma {:induction false} SplitJoined(s: string, d: char)
    ensures Joined(Split(s, d), d) == Closed(s, d)
    decreases |s|
  {
    hide Split, Head, Joined, Closed;
    JoinedNone(d);
    if s != "" {
      SplitStep(s, d);
      var h := Head(s, d);
      if |h| < |s| {
        var rest := s[|h| + 1..];
        SplitJoined(rest, d);
        JoinedCons(h, Split(rest, d), d);
        Glue(h, d, rest);
      } else {
        JoinedCons(s, [], d);
      }
    }
  }

  /** Text with a delimiter at its end, added if it has none. */
  function Closed(s: string, d: char): string {
    if s == "" || s[|s| - 1] == d then s else s + [d]
  }

  lemma Glue(h: string, d: char, rest: string)
    ensures h + [d] + Closed(rest, d) == Closed(h + [d] + rest, d)
  {
    var s := h + [d] + rest;
    assert s[|s| - 1] == if rest == "" then d else rest[|rest| - 1];
    assert h + [d] + (rest + [d]) == s + [d];
  }

  lemma JoinedNone(d: char)
    ensures Joined([], d) == "" && Closed("", d) == "" && Split("", d) == []
  {
  }

  /** The tokens that begin at or after an offset. */
  ghost function Rest(s: string, offset: nat, d: char): seq<string> {
    if offset <= |s| then Split(s[offset..], d) else []
  }

  lemma RestStep(s: string, from: nat, to: nat, d: char)
    requires from < |s| && from <= to <= |s| && (to < |s| ==> s[to] == d)
    requires d !in s[from..to]
    ensures Rest(s, from, d) == [s[from..to]] + Rest(s, to + 1, d)
  {
    hide Split, Head;
    var rest := s[from..];
    SplitStep(rest, d);
    HeadIs(rest, to - from, d);
    assert rest[..to - from] == s[from..to];
    if to < |s| { assert rest[to - from + 1..] == s[to + 1..]; } else { SplitNone(d); }
  }

  lemma SplitNone(d: char)
    ensures Split("", d) == []
  {
  }

  lemma HeadIs(s: string, n: nat, d: char)
    requires n <= |s| && (n < |s| ==> s[n] == d) && d !in s[..n]
    ensures Head(s, d) == s[..n]
  {
    hide Head;
    assert forall i | 0 <= i < n :: s[i] in s[..n];
  }

  /** token_split fills at most limit slots, and its count exceeds the limit exactly when tokens are left over. */
  method TokenSplit(src: string, limit: nat, d: char) returns (count: nat, tokens: seq<string>)
    ensures count == if |Split(src, d)| <= limit then |Split(src, d)| else limit + 1
    ensures tokens == Split(src, d)[..if |Split(src, d)| <= limit then |Split(src, d)| else limit]
  {
    hide Split, Rest;
    var offset := 0;
    count, tokens := 0, [];
    RestEnds(src, offset, d);
    while offset < |src|
      invariant count == |tokens| <= limit && Split(src, d) == tokens + Rest(src, offset, d)
      decreases |src| - offset
    {
      var end := FindDelimiter(src, offset, d);
      RestStep(src, offset, end, d);
      count := count + 1;
      if count > limit {
        return;
      }
      tokens := tokens + [src[offset..end]];
      offset := end + 1;
    }
    RestEnds(src, offset, d);
  }

  lemma RestEnds(s: string, offset: nat, d: char)
    ensures offset >= |s| ==> Rest(s, offset, d) == []
    ensures Rest(s, 0, d) == Split(s, d)
  {
    assert s[0..] == s;
  }

  method FindDelimiter(src: string, offset: nat, d: char) returns (end: nat)
    requires offset < |src|
    ensures offset <= end <= |src| && d !in src[offset..end] && (end < |src| ==> src[end] == d)
  {
    end := offset;
    while end < |src| && src[end] != d
      invariant offset <= end <= |src| && d !in src[offset..end]
    {
      end := end + 1;
    }
  }

  // ---------- operation rates ----------

  function Upper(s: string): string {
    if s == "" then ""
    else [if 'a' <= s[0] <= 'z' then (s[0] as int - 32) as char else s[0]] + Upper(s[1..])
  }

  /** parse_op_type: the opcode a name stands for, in either case. */
  function OpType(name: string): (op: Option<nat>)
    ensures op.Some? ==> op.value < BIO_MAX
  {
    var n := Upper(name);
    if n == "READ" || n == "R" then Some(0)
    else if n == "WRITE" || n == "W" then Some(1)
    else if n == "FLUSH" || n == "F" then Some(2)
    else if n == "DEALLOCATE" || n == "DEALLOC" || n == "D" then Some(3)
    else if n == "WRITE_ZEROES" || n == "WRITE_ZEROS" || n == "WRITE_ZERO" || n == "WZ" || n == "Z" then Some(4)
    else if n in ["WRITE_UNCORRECTABLE", "WRITE_UNCORRECT", "WRITE_UNCOR", "WU", "U"] then Some(5)
    else if n == "IDENTIFY" then Some(6)
    else if n == "FW_DOWNLOAD" then Some(7)
    else None
  }

  /** The names of the operations, in the order of enum bio_opcode. */
  function NamesOf(op: nat): seq<string> {
    match op
    case 0 => ["READ", "R"]
    case 1 => ["WRITE", "W"]
    case 2 => ["FLUSH", "F"]
    case 3 => ["DEALLOCATE", "DEALLOC", "D"]
    case 4 => ["WRITE_ZEROES", "WRITE_ZEROS", "WRITE_ZERO", "WZ", "Z"]
    case 5 => ["WRITE_UNCORRECTABLE", "WRITE_UNCORRECT", "WRITE_UNCOR", "WU", "U"]
    case 6 => ["IDENTIFY"]
    case 7 => ["FW_DOWNLOAD"]
    case _ => []
  }

  /** The text is the name, each letter of it in either case. */
  predicate Spells(text: string, name: string) {
    && |text| == |name|
    && forall i | 0 <= i < |name| ::
         text[i] == name[i] || ('A' <= name[i] <= 'Z' && text[i] as int == name[i] as int + 32)
  }

  predicate HasLower(s: string) {
    exists i | 0 <= i < |s| :: 'a' <= s[i] <= 'z'
  }

  lemma {:induction false} UpperSpells(text: string, name: string)
    requires !HasLower(name)
    ensures Upper(text) == name <==> Spells(text, name)
    decreases |text|
  {
    if text == "" {
    } else if name != "" {
      assert !HasLower(name[1..]);
      UpperSpells(text[1..], name[1..]);
      assert Upper(text)[1..] == Upper(text[1..]);
      assert name == [name[0]] + name[1..];
      assert Upper(text) == [Upper(text)[0]] + Upper(text[1..]);
      assert Spells(text, name) <==> Spells(text[..1], name[..1]) && Spells(text[1..], name[1..]) by {
        SpellsCons(text, name);
      }
    }
  }

  lemma SpellsCons(text: string, name: string)
    requires text != "" && name != ""
    ensures Spells(text, name) <==> Spells(text[..1], name[..1]) && Spells(text[1..], name[1..])
  {
    if Spells(text[..1], name[..1]) && Spells(text[1..], name[1..]) {
      forall i | 0 <= i < |name|
        ensures text[i] == name[i] || ('A' <= name[i] <= 'Z' && text[i] as int == name[i] as int + 32)
      {
        if i == 0 { assert text[..1][0] == text[0]; } else { assert text[1..][i - 1] == text[i]; }
      }
    }
  }

  lemma OpTypeUpper(text: string, op: nat)
    ensures OpType(text) == Some(op) <==> Upper(text) in NamesOf(op)
  {
    hide Upper;
  }

  /** Which operation a text stands for: exactly the one of whose names it is a spelling. */
  lemma OpTypeIff(text: string, op: nat)
    ensures OpType(text) == Some(op) <==> exists k :: 0 <= k < |NamesOf(op)| && Spells(text, NamesOf(op)[k])
  {
    hide OpType, Upper, Spells;
    OpTypeUpper(text, op);
    forall k | 0 <= k < |NamesOf(op)| ensures Upper(text) == NamesOf(op)[k] <==> Spells(text, NamesOf(op)[k]) {
      NamesAreUpper(op, k);
      UpperSpells(text, NamesOf(op)[k]);
    }
  }

  lemma NamesAreUpper(op: nat, k: nat)
    requires k < |NamesOf(op)|
    ensures !HasLower(NamesOf(op)[k])
  {
  }

  /** The number a text of digits denotes. */
  function Decimal(s: string): Option<nat> {
    if s == "" then Some(0)
    else
      var c := s[|s| - 1];
      match Decimal(s[..|s| - 1])
      case None => None
      case Some(n) => if '0' <= c <= '9' then Some(10 * n + (c as int - '0' as int)) else None
  }

  /** to_integer: the number in 64 bits, or a parse error. */
  method ToInteger(s: string) returns (r: Option<nat>)
    ensures r == match Decimal(s) case None => None case Some(n) => Some(n % U64_LIMIT)
  {
    var res: nat := 0;
    for i := 0 to |s|
      invariant Decimal(s[..i]).Some? && res == Decimal(s[..i]).value % U64_LIMIT
    {
      assert s[..i + 1][..i] == s[..i];
      if '0' <= s[i] <= '9' {
        var digit: nat := s[i] as int - '0' as int;
        WrapStep(Decimal(s[..i]).value, digit);
        res := (10 * res + digit) % U64_LIMIT;
      } else {
        DecimalPrefix(s, i + 1);
        return None;
      }
    }
    assert s[..|s|] == s;
    return Some(res);
  }

  lemma WrapStep(n: nat, digit: nat)
    ensures (10 * (n % U64_LIMIT) + digit) % U64_LIMIT == (10 * n + digit) % U64_LIMIT
  {
    var q := n / U64_LIMIT;
    assert 10 * n + digit == 10 * (n % U64_LIMIT) + digit + U64_LIMIT * (10 * q);
  }

  lemma {:induction false} DecimalPrefix(s: string, n: nat)
    requires n <= |s| && Decimal(s[..n]).None?
    ensures Decimal(s).None?
    decreases |s|
  {
    if n == |s| {
      assert s[..n] == s;
    } else {
      assert s[..|s| - 1][..n] == s[..n];
      DecimalPrefix(s[..|s| - 1], n);
    }
  }

  /** One parameter of the property: an operation with a rate, or with whatever is left. */
  datatype Param = Param(op: nat, rate: Option<nat>)

  function Meaning(text: string): (r: Option<Param>)
    ensures r.Some? ==> r.value.op < BIO_MAX
  {
    var sub := Split(text, ':');
    if sub == [] || OpType(sub[0]).None? then None
    else if |sub| == 1 then Some(Param(OpType(sub[0]).value, None))
    else match Decimal(sub[1])
      case None => None
      case Some(n) => Some(Param(OpType(sub[0]).value, Some(n % U64_LIMIT % U32_LIMIT)))
  }

  /** The parameters of a property, if each of them means something. */
  function Meanings(texts: seq<string>): (r: Option<seq<Param>>)
    ensures r.Some? ==> |r.value| == |texts|
  {
    if texts == [] then Some([])
    else
      var n := |texts| - 1;
      if Meanings(texts[..n]).None? || Meaning(texts[n]).None? then None
      else Some(Meanings(texts[..n]).value + [Meaning(texts[n]).value])
  }

  /** What parameters take of the 100 percent together; one without a rate takes what is left. */
  ghost function Total(params: seq<Param>): nat
    decreases |params|, 0
  {
    if params == [] then 0
    else Total(params[..|params| - 1]) + Share(params, |params| - 1)
  }

  ghost function Share(params: seq<Param>, i: nat): nat
    requires i < |params|
    decreases i, 1
  {
    match params[i].rate
    case Some(rate) => rate
    case None => if Total(params[..i]) <= 100 then 100 - Total(params[..i]) else 0
  }

  ghost predicate Distinct(params: seq<Param>) {
    forall i, j | 0 <= i < j < |params| :: params[i].op != params[j].op
  }

  /** The values the property may have. */
  ghost predicate Accepted(texts: seq<string>) {
    Meanings(texts).Some? && Distinct(Meanings(texts).value) && Total(Meanings(texts).value) == 100
  }

  ghost predicate Named(params: seq<Param>, op: nat) {
    exists i | 0 <= i < |params| :: params[i].op == op
  }

  /** Each operation named has its share, every other operation nothing, and the shares add up. */
  ghost predicate RatesOf(params: seq<Param>, rates: seq<nat>) {
    && |rates| == BIO_MAX && Sum(rates) == Total(params)
    && (forall i | 0 <= i < |params| :: params[i].op < BIO_MAX && rates[params[i].op] == Share(params, i))
    && (forall o | 0 <= o < BIO_MAX && !Named(params, o) :: rates[o] == 0)
  }

  /** One more parameter is one more operation, with its share. */
  lemma RatesNext(params: seq<Param>, rates: seq<nat>, p: Param)
    requires RatesOf(params, rates) && p.op < BIO_MAX && !Named(params, p.op)
    ensures RatesOf(params + [p], rates[p.op := Share(params + [p], |params|)])
  {
    var all := params + [p];
    assert all[..|params|] == params;
    forall i | 0 <= i < |params| ensures Share(all, i) == Share(params, i) {
      assert all[..i] == params[..i];
    }
    SumUpdate(rates, p.op, Share(all, |params|));
    forall o | Named(params, o) ensures Named(all, o) {
      var i :| 0 <= i < |params| && params[i].op == o;
      assert all[i].op == o;
    }
    assert all[|params|].op == p.op;
  }

  lemma {:induction false} TotalMonotone(params: seq<Param>, n: nat)
    requires n <= |params|
    ensures Total(params[..n]) <= Total(params)
    decreases |params|
  {
    if n == |params| {
      assert params[..n] == params;
    } else {
      assert params[..|params| - 1][..n] == params[..n];
      TotalMonotone(params[..|params| - 1], n);
    }
  }

  lemma {:induction false} MeaningsPrefix(texts: seq<string>, n: nat)
    requires n <= |texts| && Meanings(texts).Some?
    ensures Meanings(texts[..n]).Some? && Meanings(texts[..n]).value == Meanings(texts).value[..n]
    decreases |texts|
  {
    if n == |texts| {
      assert texts[..n] == texts;
    } else {
      assert texts[..|texts| - 1][..n] == texts[..n];
      MeaningsPrefix(texts[..|texts| - 1], n);
    }
  }

  lemma MeaningsNext(texts: seq<string>, n: nat)
    requires n < |texts| && Meanings(texts[..n]).Some?
    ensures Meanings(texts[..n + 1]) ==
      match Meaning(texts[n]) case None => None case Some(p) => Some(Meanings(texts[..n]).value + [p])
  {
    assert texts[..n + 1][..n] == texts[..n];
  }

  /** Once the parameters so far are refused, the value is. */
  lemma RefusedEarly(texts: seq<string>, n: nat)
    requires n <= |texts| && Accepted(texts)
    ensures Meanings(texts[..n]).Some? && Distinct(Meanings(texts[..n]).value) &&
      Total(Meanings(texts[..n]).value) <= 100
  {
    MeaningsPrefix(texts, n);
    TotalMonotone(Meanings(texts).value, n);
  }

  lemma NextRefused(params: seq<Param>, p: Param)
    ensures Named(params, p.op) ==> !Distinct(params + [p])
    ensures p.rate.Some? ==> Total(params + [p]) == Total(params) + p.rate.value
  {
    var all := params + [p];
    assert all[..|params|] == params && all[|params|] == p;
    if Named(params, p.op) {
      var i :| 0 <= i < |params| && params[i].op == p.op;
      assert all[i].op == all[|params|].op;
    }
  }

  lemma Refuse(texts: seq<string>, n: nat, params: seq<Param>)
    requires n < |texts| && Meanings(texts[..n]) == Some(params)
    requires match Meaning(texts[n])
             case None => true
             case Some(p) => Named(params, p.op) || (p.rate.Some? && Total(params) + p.rate.value > 100)
    ensures !Accepted(texts)
  {
    MeaningsNext(texts, n);
    if Accepted(texts) {
      RefusedEarly(texts, n + 1);
      NextRefused(params, Meaning(texts[n]).value);
    }
  }

  /** What reading one more acceptable parameter establishes. */
  lemma Admit(texts: seq<string>, n: nat, params: seq<Param>, rates: seq<nat>, p: Param)
    requires n < |texts| && Meanings(texts[..n]) == Some(params) && Meaning(texts[n]) == Some(p)
    requires RatesOf(params, rates) && Distinct(params) && !Named(params, p.op)
    ensures Meanings(texts[..n + 1]) == Some(params + [p]) && Distinct(params + [p])
    ensures var share := if p.rate.Some? then p.rate.value else if Total(params) <= 100 then 100 - Total(params) else 0;
            RatesOf(params + [p], rates[p.op := share]) && Total(params + [p]) == Total(params) + share
    ensures forall o :: Named(params + [p], o) <==> Named(params, o) || o == p.op
  {
    hide RatesOf, Meaning, Meanings;
    MeaningsNext(texts, n);
    RatesNext(params, rates, p);
    NamedNext(params, p);
    assert (params + [p])[..n] == params;
  }

  lemma NamedNext(params: seq<Param>, p: Param)
    ensures forall o :: Named(params + [p], o) <==> Named(params, o) || o == p.op
    ensures Distinct(params) && !Named(params, p.op) ==> Distinct(params + [p])
  {
    var all := params + [p];
    assert all[|params|].op == p.op;
    forall o | Named(params, o) ensures Named(all, o) {
      var i :| 0 <= i < |params| && params[i].op == o;
      assert all[i].op == o;
    }
  }

  lemma {:induction false} SmallSet(m: set<nat>, n: nat)
    requires forall o | o in m :: o < n
    ensures |m| <= n
  {
    if n > 0 {
      SmallSet(m - {n - 1}, n - 1);
    }
  }

  lemma Texts(text: string, d: char)
    ensures Split(text, d) == [] <==> text == ""
    ensures text != "" && text[0] != d ==> Split(text, d)[0] != ""
  {
  }

  lemma NoParams(rates: seq<nat>)
    requires |rates| == BIO_MAX && forall o | 0 <= o < BIO_MAX :: rates[o] == 0
    ensures RatesOf([], rates) && Meanings([]) == Some([]) && Distinct([]) && Total([]) == 0
    ensures forall o :: !Named([], o)
  {
    ZeroSum(rates);
  }

  /** The loop of parse_operation: what the first parameters have been read as. */
  ghost predicate Progress(texts: seq<string>, idx: nat, params: seq<Param>, rates: seq<nat>, mask: set<nat>,
    remained: nat) {
    && idx <= |texts| && Meanings(texts[..idx]) == Some(params)
    && Distinct(params) && RatesOf(params, rates) && remained <= 100 && Total(params) == 100 - remained
    && |mask| == |params| && (forall o :: o in mask <==> Named(params, o))
  }

  lemma Start(texts: seq<string>, rates: seq<nat>)
    requires |rates| == BIO_MAX && forall o | 0 <= o < BIO_MAX :: rates[o] == 0
    ensures Progress(texts, 0, [], rates, {}, 100)
  {
    NoParams(rates);
    assert texts[..0] == [];
  }

  lemma MaskBound(texts: seq<string>, idx: nat, params: seq<Param>, rates: seq<nat>, mask: set<nat>, remained: nat)
    requires Progress(texts, idx, params, rates, mask, remained)
    ensures idx == |mask| <= BIO_MAX && |rates| == BIO_MAX
  {
    hide Total, Distinct, Sum;
    forall o | o in mask ensures o < BIO_MAX { }
    SmallSet(mask, BIO_MAX);
  }

  lemma Advance(texts: seq<string>, idx: nat, params: seq<Param>, rates: seq<nat>, mask: set<nat>, remained: nat,
    p: Param)
    requires Progress(texts, idx, params, rates, mask, remained)
    requires idx < |texts| && Meaning(texts[idx]) == Some(p) && p.op !in mask && |rates| == BIO_MAX
    requires p.rate.Some? ==> p.rate.value <= remained
    ensures var share := if p.rate.Some? then p.rate.value else remained;
            Progress(texts, idx + 1, params + [p], rates[p.op := share], mask + {p.op}, remained - share)
  {
    hide Total, Distinct, Named, Sum, RatesOf, Meanings, Meaning, Share;
    Admit(texts, idx, params, rates, p);
  }

  lemma Stop(texts: seq<string>, idx: nat, params: seq<Param>, rates: seq<nat>, mask: set<nat>, remained: nat)
    requires Progress(texts, idx, params, rates, mask, remained) && idx < |texts|
    requires match Meaning(texts[idx])
             case None => true
             case Some(p) => p.op in mask || (p.rate.Some? && p.rate.value > remained)
    ensures !Accepted(texts)
  {
    hide Accepted, Meaning, Meanings, RatesOf, Distinct;
    Refuse(texts, idx, params);
  }

  lemma Finish(texts: seq<string>, params: seq<Param>, rates: seq<nat>, mask: set<nat>, remained: nat)
    requires Progress(texts, |texts|, params, rates, mask, remained)
    ensures Accepted(texts) <==> remained == 0
    ensures remained == 0 ==> RatesOf(Meanings(texts).value, rates) && Sum(rates) == 100
  {
    hide Meanings;
    assert texts[..|texts|] == texts;
  }

  /** parse_operation on a value that does not begin with a comma: the value is accepted exactly when
      its parameters name distinct operations whose shares add up to 100, and then the rates are
      those shares. No token beyond the tenth is ever looked at. */
  method ParseOperation(value: string) returns (r: Option<seq<nat>>)
    requires value != "" ==> value[0] != ','
    ensures r.Some? <==> Accepted(Split(value, ','))
    ensures r.Some? ==> RatesOf(Meanings(Split(value, ',')).value, r.value) && Sum(r.value) == 100
  {
    hide Split, Meanings, OpType, Decimal, Progress, Accepted, RatesOf, Sum;
    ghost var texts := Split(value, ',');
    ghost var params: seq<Param> := [];
    var rates: seq<nat> := seq(BIO_MAX, _ => 0);
    var mask: set<nat> := {};
    var remained: nat := 100;
    var name := "";                                       // the operation name split off last
    var num, tokens := TokenSplit(value, 10, ',');
    var idx := 0;
    Start(texts, rates);
    Texts(value, ',');
    while idx < num
      invariant idx <= num && Progress(texts, idx, params, rates, mask, remained)
      invariant idx > 0 ==> OpType(name).Some? && OpType(name).value in mask
    {
      MaskBound(texts, idx, params, rates, mask, remained);
      var text := tokens[idx];
      Texts(text, ':');
      var n, sub := TokenSplit(text, 2, ':');
      if n > 0 { name := sub[0]; }
      var op := OpType(name);
      if op.None? || op.value in mask {
        Stop(texts, idx, params, rates, mask, remained);
        return None;
      }
      ghost var p := Meaning(text);
      if n == 1 {
        Advance(texts, idx, params, rates, mask, remained, p.value);
        rates := rates[op.value := remained];
        remained := 0;
      } else {
        var number := ToInteger(sub[1]);
        if number.None? || number.value % U32_LIMIT > remained {
          Stop(texts, idx, params, rates, mask, remained);
          return None;
        }
        Advance(texts, idx, params, rates, mask, remained, p.value);
        rates := rates[op.value := number.value % U32_LIMIT];
        remained := remained - number.value % U32_LIMIT;
      }
      params := params + [p.value];
      mask := mask + {op.value};
      idx := idx + 1;
    }
    MaskBound(texts, idx, params, rates, mask, remained);
    Finish(texts, params, rates, mask, remained);
    if remained > 0 { return None; }
    return Some(rates);
  }

  // ---------- the rates in numbers ----------

  /** A parameter without a rate takes what the ones before it have left. */
  lemma NoRateTakesRest(params: seq<Param>, i: nat)
    requires i < |params| && params[i].rate.None? && Total(params[..i]) <= 100
    ensures Total(params[..i + 1]) == 100
  {
    var some := params[..i + 1];
    assert some[..i] == params[..i];
  }

  lemma SplitTwo(a: string, b: string, d: char)
    requires a != "" && b != "" && d !in a && d !in b
    ensures Split(a + [d] + b, d) == [a, b] && Split(a, d) == [a]
  {
    hide Head, Split;
    var s := a + [d] + b;
    assert s[..|a|] == a && s[|a|] == d;
    HeadIs(s, |a|, d);
    SplitStep(s, d);
    assert s[|a| + 1..] == b;
    SplitWhole(a, d);
    SplitWhole(b, d);
  }

  lemma SplitWhole(a: string, d: char)
    requires a != "" && d !in a
    ensures Split(a, d) == [a]
  {
    hide Head, Split;
    assert a[..|a|] == a;
    HeadIs(a, |a|, d);
    SplitStep(a, d);
  }

  lemma TwoDigits(a: char, b: char)
    requires '0' <= a <= '9' && '0' <= b <= '9'
    ensures Decimal([a, b]) == Some(10 * (a as int - 48) + (b as int - 48))
  {
    assert [a, b][..1] == [a] && [a][..0] == [];
    assert Decimal([a]) == Some(a as int - 48);
  }

  /** What a parameter means: an operation alone takes what is left, a number after a colon is its rate,
      in 32 bits, and whatever stands after a second colon is ignored. */
  lemma ParameterMeaning(name: string, number: string, rest: string, op: nat, k: nat)
    requires name != "" && ':' !in name && k < |NamesOf(op)| && Spells(name, NamesOf(op)[k])
    requires number != "" && ':' !in number
    ensures Meaning(name) == Some(Param(op, None))
    ensures Meaning(name + ":" + number) == Meaning(name + ":" + number + ":" + rest)
         == match Decimal(number) case None => None case Some(n) => Some(Param(op, Some(n % 0x1_0000_0000)))
  {
    hide Split, Decimal, OpType, NamesOf, Spells;
    SplitTwo(name, number, ':');
    SplitThree(name, number, rest, ':');
    OpTypeIff(name, op);
    if Decimal(number).Some? { LowWord(Decimal(number).value); }
    assert name + ":" + number + ":" + rest == name + [':'] + number + [':'] + rest;
  }

  lemma LowWord(n: nat)
    ensures n % U64_LIMIT % U32_LIMIT == n % 0x1_0000_0000
  {
  }

  lemma SplitThree(a: string, b: string, rest: string, d: char)
    requires a != "" && b != "" && d !in a && d !in b
    ensures var s := Split(a + [d] + b + [d] + rest, d); |s| >= 2 && s[0] == a && s[1] == b
  {
    hide Head, Split;
    var s := a + [d] + b + [d] + rest;
    assert s[..|a|] == a && s[|a|] == d;
    HeadIs(s, |a|, d);
    SplitStep(s, d);
    var t := b + [d] + rest;
    assert s[|a| + 1..] == t && t[..|b|] == b && t[|b|] == d;
    HeadIs(t, |b|, d);
    SplitStep(t, d);
  }

  lemma RateOf(name: string, a: char, b: char, op: nat, k: nat)
    requires name != "" && ':' !in name && k < |NamesOf(op)| && Spells(name, NamesOf(op)[k])
    requires '0' <= a <= '9' && '0' <= b <= '9'
    ensures Meaning(name + ":" + [a, b]) == Some(Param(op, Some(10 * (a as int - 48) + (b as int - 48))))
    ensures Meaning(name) == Some(Param(op, None))
  {
    hide Meaning, Decimal, NamesOf, Spells;
    ParameterMeaning(name, [a, b], "", op, k);
    TwoDigits(a, b);
  }

  lemma TwoMeanings(a: string, b: string)
    requires Meaning(a).Some? && Meaning(b).Some?
    ensures Meanings([a, b]) == Some([Meaning(a).value, Meaning(b).value])
  {
    hide Meaning;
    var texts := [a, b];
    assert texts[..0] == [] && Meanings([]) == Some([]) && texts[..2] == texts;
    hide Meanings;
    MeaningsNext(texts, 0);
    MeaningsNext(texts, 1);
    var none: seq<Param> := [];
    var x, y := Meaning(a).value, Meaning(b).value;
    assert Meanings(texts[..1]) == Some(none + [x]) && none + [x] == [x] && [x] + [y] == [x, y];
  }

  lemma TwoShares(first: Param, second: Param)
    requires first.rate == Some(70) && (second.rate == Some(30) || second.rate == None) && first.op != second.op
    ensures Share([first, second], 0) == 70 && Share([first, second], 1) == 30
    ensures Total([first, second]) == 100 && Distinct([first, second])
  {
    var both := [first, second];
    assert both[..0] == [] && both[..1] == [first] && [first][..0] == [];
    assert Total([first]) == 70;
  }

  /** READ:70,WRITE:30 in numbers: 70 for bio_read, 30 for bio_write, nothing for the others. The same
      holds of its short form. */
  lemma ReadWriteMix()
    ensures Accepted(Split("READ:70,WRITE:30", ','))
    ensures forall rates | RatesOf(Meanings(Split("READ:70,WRITE:30", ',')).value, rates) ::
              rates[0] == 70 && rates[1] == 30 && forall o | 2 <= o < BIO_MAX :: rates[o] == 0
  {
    hide Split, Meaning, Meanings, Total, Share, Distinct, Sum, RatesOf;
    RateOf("READ", '7', '0', 0, 0);
    RateOf("WRITE", '3', '0', 1, 0);
    assert "READ" + ":" + ['7', '0'] == "READ:70" && "WRITE" + ":" + ['3', '0'] == "WRITE:30";
    SplitTwo("READ:70", "WRITE:30", ',');
    assert "READ:70" + [','] + "WRITE:30" == "READ:70,WRITE:30";
    MixRates(["READ:70", "WRITE:30"], Some(30));
  }

  lemma ShortMix()
    ensures Accepted(Split("r:70,W", ','))
    ensures forall rates | RatesOf(Meanings(Split("r:70,W", ',')).value, rates) ::
              rates[0] == 70 && rates[1] == 30 && forall o | 2 <= o < BIO_MAX :: rates[o] == 0
  {
    hide Split, Meaning, Meanings, Total, Share, Distinct, Sum, RatesOf;
    RateOf("r", '7', '0', 0, 1);
    RateOf("W", '0', '0', 1, 1);
    assert "r" + ":" + ['7', '0'] == "r:70";
    SplitTwo("r:70", "W", ',');
    assert "r:70" + [','] + "W" == "r:70,W";
    MixRates(["r:70", "W"], None);
  }

  lemma MixRates(texts: seq<string>, second: Option<nat>)
    requires |texts| == 2
    requires Meaning(texts[0]) == Some(Param(0, Some(70))) && Meaning(texts[1]) == Some(Param(1, second))
    requires second == Some(30) || second == None
    ensures Accepted(texts)
    ensures forall rates | RatesOf(Meanings(texts).value, rates) ::
              rates[0] == 70 && rates[1] == 30 && forall o | 2 <= o < BIO_MAX :: rates[o] == 0
  {
    hide Meaning, Meanings, Total, Share, Distinct, Sum;
    assert texts == [texts[0], texts[1]];
    TwoMeanings(texts[0], texts[1]);
    var params := [Param(0, Some(70)), Param(1, second)];
    TwoShares(params[0], params[1]);
    forall rates | RatesOf(params, rates)
      ensures rates[0] == 70 && rates[1] == 30 && forall o | 2 <= o < BIO_MAX :: rates[o] == 0
    {
      assert rates[params[0].op] == Share(params, 0) && rates[params[1].op] == Share(params, 1);
    }
  }
}
