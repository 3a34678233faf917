/**
 * Reading one line of the dataset into a Sequence. The line is split into
 * white-space separated tokens (what `stream >> token` does); `-1` and `-2`
 * are skipped, a token containing `SUtility:` sets the sequence utility, and
 * every other token `<id>[<utility>]` becomes an Item.
 */
module LineParser {
  import opened Wrappers
  import opened Decimal
  import opened Transactions

  predicate IsWord(w: string) {
    w != [] && forall k :: 0 <= k < |w| ==> !IsSpace(w[k])
  }

  /** Length of the leading run of non-space characters. */
  function WordLength(s: string): (n: nat)
    ensures n <= |s|
    ensures forall k :: 0 <= k < n ==> !IsSpace(s[k])
    ensures n < |s| ==> IsSpace(s[n])
  {
    if s == [] || IsSpace(s[0]) then 0 else 1 + WordLength(s[1..])
  }

  /** The tokens successive `stream >> token` extractions read from s. */
  function Tokens(s: string): (ws: seq<string>)
    ensures forall k :: 0 <= k < |ws| ==> IsWord(ws[k])
    decreases |s|
  {
    if s == [] then []
    else if IsSpace(s[0]) then Tokens(s[1..])
    else
      var n := WordLength(s);
      [s[..n]] + Tokens(s[n..])
  }

  /** std::string::find of a character: the first position, or |s| for npos. */
  function Find(s: string, c: char): (k: nat)
    ensures k <= |s|
    ensures forall j :: 0 <= j < k ==> s[j] != c
    ensures k < |s| ==> s[k] == c
  {
    if s == [] || s[0] == c then 0 else 1 + Find(s[1..], c)
  }

  /** Whether pat occurs somewhere in s (std::string::find != npos). */
  function Occurs(pat: string, s: string): (b: bool)
    ensures b ==> |s| >= |pat|
  {
    |s| >= |pat| && (s[..|pat|] == pat || Occurs(pat, s[1..]))
  }

  /** pat is spelled by s starting at position i. */
  predicate MatchAt(pat: string, s: string, i: nat) {
    i + |pat| <= |s| && s[i..i + |pat|] == pat
  }

  /** Occurs finds pat exactly when some window of s spells it. */
  lemma {:induction false} OccursAt(pat: string, s: string)
    ensures Occurs(pat, s) <==> exists i: nat :: MatchAt(pat, s, i)
    decreases |s|
  {
    if |s| >= |pat| && s[..|pat|] != pat {
      OccursAt(pat, s[1..]);
      if Occurs(pat, s[1..]) {
        var i: nat :| MatchAt(pat, s[1..], i);
        assert s[i + 1..i + 1 + |pat|] == s[1..][i..i + |pat|];
        assert MatchAt(pat, s, i + 1);
      }
      if exists i: nat :: MatchAt(pat, s, i) {
        var i: nat :| MatchAt(pat, s, i);
        assert i != 0;
        assert s[1..][i - 1..i - 1 + |pat|] == s[i..i + |pat|];
        assert MatchAt(pat, s[1..], i - 1);
      }
    } else if |s| >= |pat| {
      assert MatchAt(pat, s, 0);
    }
  }

  /** What one token contributes to the sequence being read. */
  datatype Token = Separator | Total(value: int) | Entry(item: Item)

  /**
   * The utility text of an item token, given the positions of `[` and `]`
   * (|tok| standing for npos). The length closeBracket - openBracket - 1 is
   * unsigned: no `[` makes it wrap to the position of `]`, so the text is
   * what precedes `]` (or the whole token); no `]`, or a `]` before the `[`,
   * makes it huge, so the text is everything after `[`.
   */
  function UtilityText(tok: string, open: nat, close: nat): string
    requires open <= |tok| && close <= |tok|
  {
    if open == |tok| then tok[..close]
    else if close <= open || close == |tok| then tok[open + 1..]
    else tok[open + 1..close]
  }

  /**
   * The reading of one token, branch by branch as the source does it; None is
   * a std::stoi that throws. A missing `[` gives the id from the whole token.
   */
  function ReadToken(tok: string): Option<Token> {
    if tok == "-1" || tok == "-2" then Some(Separator)
    else if Occurs("SUtility:", tok) then
      match StoI(tok[9..])
      case None => None
      case Some(v) => Some(Total(v))
    else
      var open := Find(tok, '[');
      var close := Find(tok, ']');
      match (StoI(tok[..open]), StoI(UtilityText(tok, open, close)))
      case (Some(id), Some(u)) => Some(Entry(Item(id, u)))
      case _ => None
  }

  /** The state of parseSequence's loop: items so far, and the last sequence utility read. */
  datatype Partial = Partial(items: seq<Item>, sUtility: Option<int>)

  /** The loop of parseSequence over the tokens toks, from state st; None once a token throws. */
  function Run(toks: seq<string>, st: Partial): Option<Partial>
    decreases |toks|
  {
    if toks == [] then Some(st)
    else
      match ReadToken(toks[0])
      case None => None
      case Some(Separator) => Run(toks[1..], st)
      case Some(Total(v)) => Run(toks[1..], st.(sUtility := Some(v)))
      case Some(Entry(it)) => Run(toks[1..], st.(items := st.items + [it]))
  }

  datatype ParseError = InvalidNumber | MissingSequenceUtility

  /** parseSequence on one line: a std::stoi failure, or a line without any sequence utility, is an error. */
  function ParseLine(line: string): Result<Sequence, ParseError> {
    match Run(Tokens(line), Partial([], None))
    case None => Err(InvalidNumber)
    case Some(st) =>
      if st.sUtility.None? then Err(MissingSequenceUtility)
      else Ok(Sequence(st.items, st.sUtility.value))
  }

  method ParseSequence(line: string) returns (r: Result<Sequence, ParseError>)
    ensures r == ParseLine(line)
  {
    var toks := Tokens(line);
    var items: seq<Item> := [];
    var sUtility: Option<int> := None;
    var k := 0;
    while k < |toks|
      invariant 0 <= k <= |toks|
      invariant Run(toks[k..], Partial(items, sUtility)) == Run(toks, Partial([], None))
    {
      var tok := toks[k];
      if tok == "-1" || tok == "-2" {
        SeparatorAt(toks, k, Partial(items, sUtility));
      } else if Occurs("SUtility:", tok) {
        TotalAt(toks, k, Partial(items, sUtility));
        var v := StoI(tok[9..]);
        if v.None? {
          return Err(InvalidNumber);
        }
        sUtility := Some(v.value);
      } else {
        var open := Find(tok, '[');
        var close := Find(tok, ']');
        EntryAt(toks, k, Partial(items, sUtility));
        var id := StoI(tok[..open]);
        var u := StoI(UtilityText(tok, open, close));
        if id.None? || u.None? {
          return Err(InvalidNumber);
        }
        items := items + [Item(id.value, u.value)];
      }
      k := k + 1;
    }
    if sUtility.None? {
      return Err(MissingSequenceUtility);
    }
    return Ok(Sequence(items, sUtility.value));
  }

  /** One round of the loop: reading toks from position k reads toks[k], then the rest. */
  lemma RunStep(toks: seq<string>, k: nat, st: Partial)
    requires k < |toks|
    ensures Run(toks[k..], st) == match ReadToken(toks[k])
      case None => None
      case Some(Separator) => Run(toks[k + 1..], st)
      case Some(Total(v)) => Run(toks[k + 1..], st.(sUtility := Some(v)))
      case Some(Entry(it)) => Run(toks[k + 1..], st.(items := st.items + [it]))
  {
    assert toks[k..][0] == toks[k];
    assert toks[k..][1..] == toks[k + 1..];
  }

  /** A round of the loop on `-1` or `-2` changes nothing. */
  lemma SeparatorAt(toks: seq<string>, k: nat, st: Partial)
    requires k < |toks| && (toks[k] == "-1" || toks[k] == "-2")
    ensures Run(toks[k..], st) == Run(toks[k + 1..], st)
  {
    RunStep(toks, k, st);
  }

  /** A round of the loop on a `SUtility:` token replaces the sequence utility, or throws. */
  lemma TotalAt(toks: seq<string>, k: nat, st: Partial)
    requires k < |toks| && toks[k] != "-1" && toks[k] != "-2" && Occurs("SUtility:", toks[k])
    ensures Run(toks[k..], st) == match StoI(toks[k][9..])
      case None => None
      case Some(v) => Run(toks[k + 1..], st.(sUtility := Some(v)))
  {
    RunStep(toks, k, st);
  }

  /** A round of the loop on an item token appends the item, or throws. */
  lemma EntryAt(toks: seq<string>, k: nat, st: Partial)
    requires k < |toks| && toks[k] != "-1" && toks[k] != "-2" && !Occurs("SUtility:", toks[k])
    ensures var tok, open, close := toks[k], Find(toks[k], '['), Find(toks[k], ']');
      Run(toks[k..], st) == match (StoI(tok[..open]), StoI(UtilityText(tok, open, close)))
      case (Some(id), Some(u)) => Run(toks[k + 1..], st.(items := st.items + [Item(id, u)]))
      case _ => None
  {
    RunStep(toks, k, st);
  }

  /** Reading the tokens a ++ b is reading a, then b from where a left off. */
  lemma {:induction false} RunConcat(a: seq<string>, b: seq<string>, st: Partial)
    ensures Run(a + b, st) == (match Run(a, st) case None => None case Some(mid) => Run(b, mid))
    decreases |a|
  {
    if a != [] {
      assert (a + b)[0] == a[0];
      assert (a + b)[1..] == a[1..] + b;
      match ReadToken(a[0])
      case None =>
      case Some(Separator) => RunConcat(a[1..], b, st);
      case Some(Total(v)) => RunConcat(a[1..], b, st.(sUtility := Some(v)));
      case Some(Entry(it)) => RunConcat(a[1..], b, st.(items := st.items + [it]));
    } else {
      assert a + b == b;
    }
  }

  /** A `-1` or `-2` token anywhere in the line changes nothing. */
  lemma SeparatorIgnored(a: seq<string>, sep: string, b: seq<string>, st: Partial)
    requires sep == "-1" || sep == "-2"
    ensures Run(a + [sep] + b, st) == Run(a + b, st)
  {
    RunConcat(a, [sep] + b, st);
    RunConcat(a, b, st);
    assert a + [sep] + b == a + ([sep] + b);
    assert ([sep] + b)[1..] == b;
  }

  /** The token std::to_string writes for a sequence utility. */
  function TotalToken(v: int): string {
    "SUtility:" + DecimalString(v)
  }

  /** The token std::to_string writes for an item. */
  function ItemToken(it: Item): string {
    DecimalString(it.id) + "[" + DecimalString(it.internalUtility) + "]"
  }

  lemma ReadTotalToken(v: int)
    ensures ReadToken(TotalToken(v)) == Some(Total(v))
  {
    var tok := TotalToken(v);
    assert tok[..9] == "SUtility:";
    assert tok[9..] == DecimalString(v);
    StoIDecimal(v);
  }

  /** A later `SUtility:` token replaces the sequence utility read so far. */
  lemma LastTotalWins(a: seq<string>, v: int, st: Partial)
    ensures Run(a + [TotalToken(v)], st)
         == (match Run(a, st) case None => None case Some(mid) => Some(mid.(sUtility := Some(v))))
  {
    RunConcat(a, [TotalToken(v)], st);
    ReadTotalToken(v);
  }

  lemma {:induction false} OccursHead(pat: string, s: string)
    requires pat != [] && Occurs(pat, s)
    ensures exists k :: 0 <= k < |s| && s[k] == pat[0]
    decreases |s|
  {
    if s[..|pat|] == pat {
      assert s[0] == pat[0];
    } else {
      OccursHead(pat, s[1..]);
      var k :| 0 <= k < |s[1..]| && s[1..][k] == pat[0];
      assert s[k + 1] == pat[0];
    }
  }

  /** The characters of an item token: digits, minus signs and the two brackets. */
  lemma ItemTokenChars(it: Item)
    ensures var tok := ItemToken(it); var n := |DecimalString(it.id)|;
      && n < |tok| - 1 && tok[n] == '[' && tok[|tok| - 1] == ']'
      && tok[..n] == DecimalString(it.id)
      && tok[n + 1..|tok| - 1] == DecimalString(it.internalUtility)
      && (forall k :: 0 <= k < |tok| && k != n && k != |tok| - 1 ==> IsDigit(tok[k]) || tok[k] == '-')
  {
    var tok := ItemToken(it);
    var idText := DecimalString(it.id);
    var uText := DecimalString(it.internalUtility);
    var n := |idText|;
    forall k | 0 <= k < |tok| && k != n && k != |tok| - 1 ensures IsDigit(tok[k]) || tok[k] == '-' {
      if k < n {
        assert tok[k] == idText[k];
        if k > 0 { assert idText[1..][k - 1] == idText[k]; }
      } else {
        assert tok[k] == uText[k - n - 1];
        if k > n + 1 { assert uText[1..][k - n - 2] == uText[k - n - 1]; }
      }
    }
    assert tok[..n] == idText;
    assert tok[n + 1..|tok| - 1] == uText;
  }

  lemma ReadItemToken(it: Item)
    ensures ReadToken(ItemToken(it)) == Some(Entry(it))
  {
    var tok := ItemToken(it);
    var n := |DecimalString(it.id)|;
    ItemTokenChars(it);
    assert !Occurs("SUtility:", tok) by {
      if Occurs("SUtility:", tok) {
        OccursHead("SUtility:", tok);
        assert false;
      }
    }
    assert tok != "-1" && tok != "-2" by {
      assert |tok| > 2;
    }
    assert Find(tok, '[') == n;
    assert Find(tok, ']') == |tok| - 1;
    StoIDecimal(it.id);
    StoIDecimal(it.internalUtility);
  }

  lemma RunEntry(toks: seq<string>, it: Item, st: Partial)
    requires toks != [] && ReadToken(toks[0]) == Some(Entry(it))
    ensures Run(toks, st) == Run(toks[1..], st.(items := st.items + [it]))
  {
  }

  /** Each token of toks reads as the item at the same position of items. */
  predicate ReadAsEntries(toks: seq<string>, items: seq<Item>)
    decreases |toks|
  {
    |toks| == |items| &&
    (toks != [] ==> ReadToken(toks[0]) == Some(Entry(items[0])) && ReadAsEntries(toks[1..], items[1..]))
  }

  lemma AppendFirst(a: seq<Item>, items: seq<Item>)
    requires items != []
    ensures a + [items[0]] + items[1..] == a + items
  {
    assert [items[0]] + items[1..] == items;
  }

  /** Tokens that each read as an item are read in order, each one appending its item. */
  lemma {:induction false} RunEntries(toks: seq<string>, items: seq<Item>, st: Partial)
    requires ReadAsEntries(toks, items)
    ensures Run(toks, st) == Some(st.(items := st.items + items))
    decreases |toks|
  {
    if toks == [] {
      assert st.items + items == st.items;
    } else {
      var next := st.(items := st.items + [items[0]]);
      RunEntry(toks, items[0], st);
      RunEntries(toks[1..], items[1..], next);
      AppendFirst(st.items, items);
    }
  }

  lemma {:induction false} ItemTokensReadAsEntries(items: seq<Item>)
    ensures ReadAsEntries(ItemTokens(items), items)
    decreases |items|
  {
    if items != [] {
      ReadItemToken(items[0]);
      ItemTokensReadAsEntries(items[1..]);
      assert ItemTokens(items)[1..] == ItemTokens(items[1..]);
    }
  }

  /** The item tokens of a line, one per item, in order. */
  function ItemTokens(items: seq<Item>): (ws: seq<string>)
    ensures |ws| == |items|
    ensures forall k :: 0 <= k < |items| ==> ws[k] == ItemToken(items[k])
  {
    seq(|items|, k requires 0 <= k < |items| => ItemToken(items[k]))
  }

  /** Words joined by single spaces. */
  function Join(ws: seq<string>): string {
    if ws == [] then "" else if |ws| == 1 then ws[0] else ws[0] + " " + Join(ws[1..])
  }

  /** A dataset line for s: its items, an itemset separator, and its sequence utility. */
  function Format(s: Sequence): string {
    Join(LineTokens(s))
  }

  function LineTokens(s: Sequence): seq<string> {
    ItemTokens(s.items) + ["-1", TotalToken(s.sUtility)]
  }

  lemma WordLengthOfWord(w: string, rest: string)
    requires IsWord(w)
    requires rest == [] || IsSpace(rest[0])
    ensures WordLength(w + rest) == |w|
  {
    var s := w + rest;
    assert forall k :: 0 <= k < |w| ==> s[k] == w[k];
    assert rest != [] ==> s[|w|] == rest[0];
  }

  lemma {:induction false} TokensJoin(ws: seq<string>)
    requires forall k :: 0 <= k < |ws| ==> IsWord(ws[k])
    ensures Tokens(Join(ws)) == ws
    decreases |ws|
  {
    if |ws| == 1 {
      WordLengthOfWord(ws[0], "");
      assert ws[0] + "" == ws[0];
      assert ws[0][..|ws[0]|] == ws[0];
      assert ws[0][|ws[0]|..] == [];
    } else if |ws| > 1 {
      var w := ws[0];
      var rest := " " + Join(ws[1..]);
      var s := w + rest;
      assert Join(ws) == s;
      WordLengthOfWord(w, rest);
      assert s[..|w|] == w;
      assert s[|w|..] == rest;
      assert rest[1..] == Join(ws[1..]);
      TokensJoin(ws[1..]);
      assert [w] + ws[1..] == ws;
    }
  }

  lemma IsWordToken(it: Item)
    ensures IsWord(ItemToken(it))
  {
    var tok := ItemToken(it);
    var idText := DecimalString(it.id);
    var uText := DecimalString(it.internalUtility);
    var n := |idText|;
    forall k | 0 <= k < |tok| ensures !IsSpace(tok[k]) {
      if k < n {
        assert tok[k] == idText[k];
        if k > 0 { assert idText[1..][k - 1] == idText[k]; }
      } else if n < k < |tok| - 1 {
        assert tok[k] == uText[k - n - 1];
        if k > n + 1 { assert uText[1..][k - n - 2] == uText[k - n - 1]; }
      }
    }
  }

  lemma IsWordTotal(v: int)
    ensures IsWord(TotalToken(v))
  {
    var t := TotalToken(v);
    forall j | 0 <= j < |t| ensures !IsSpace(t[j]) {
      if j >= 10 { assert t[j] == DecimalString(v)[1..][j - 10]; }
    }
  }

  lemma FormatTokensAreWords(s: Sequence)
    ensures forall k :: 0 <= k < |LineTokens(s)| ==> IsWord(LineTokens(s)[k])
  {
    var toks := LineTokens(s);
    var n := |s.items|;
    forall k | 0 <= k < |toks| ensures IsWord(toks[k]) {
      if k < n {
        IsWordToken(s.items[k]);
        assert toks[k] == ItemTokens(s.items)[k];
      } else if k == n {
        assert toks[k] == "-1";
      } else {
        IsWordTotal(s.sUtility);
        assert toks[k] == TotalToken(s.sUtility);
      }
    }
  }

  lemma RunTail(items: seq<Item>, v: int)
    ensures Run(["-1", TotalToken(v)], Partial(items, None)) == Some(Partial(items, Some(v)))
  {
    var toks := ["-1", TotalToken(v)];
    assert ReadToken(toks[0]) == Some(Separator);
    assert Run(toks, Partial(items, None)) == Run(toks[1..], Partial(items, None));
    ReadTotalToken(v);
    assert toks[1..] == [TotalToken(v)];
    assert [TotalToken(v)][1..] == [];
  }

  /** Reading a formatted line gives back the sequence that was written. */
  lemma ParseFormat(s: Sequence)
    ensures ParseLine(Format(s)) == Ok(s)
  {
    var entries := ItemTokens(s.items);
    var tail := ["-1", TotalToken(s.sUtility)];
    FormatTokensAreWords(s);
    TokensJoin(LineTokens(s));
    ItemTokensReadAsEntries(s.items);
    RunEntries(entries, s.items, Partial([], None));
    assert [] + s.items == s.items;
    RunConcat(entries, tail, Partial([], None));
    RunTail(s.items, s.sUtility);
  }
}
