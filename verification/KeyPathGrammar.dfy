/** Which texts are key paths, and what they mean: the grammar the scanner accepts. */
module KeyPathGrammar {
  import opened Prelude
  import opened Text
  import opened KeyPath

  // A path is spelled as dots, names and bracketed indices.
  datatype Token = Dot | Name(text: string) | Element(digits: string)

  function Spell(t: Token): string {
    match t
    case Dot => "."
    case Name(text) => text
    case Element(digits) => "[" + digits + "]"
  }

  function SpellAll(tokens: seq<Token>): string {
    if tokens == [] then "" else SpellAll(tokens[..|tokens| - 1]) + Spell(tokens[|tokens| - 1])
  }

  predicate IsToken(t: Token) {
    match t
    case Dot => true
    case Name(text) => text != "" && '.' !in text && '[' !in text && ']' !in text
    case Element(digits) => digits != "" && AllDigits(digits) && NumberOf(digits) < 0x1_0000_0000_0000_0000
  }

  predicate MayFollow(before: seq<Token>, t: Token) {
    before == [] || !before[|before| - 1].Name? || !t.Name?
  }

  // Names do not touch; anything else may follow anything, and dots may be repeated.
  predicate IsSpelling(tokens: seq<Token>) {
    tokens == [] ||
    var n := |tokens| - 1;
    IsSpelling(tokens[..n]) && IsToken(tokens[n]) && MayFollow(tokens[..n], tokens[n])
  }

  function MeaningOf(t: Token): seq<Segment> {
    match t
    case Dot => []
    case Name(text) => [Field(text)]
    case Element(digits) => if AllDigits(digits) then [Index(NumberOf(digits))] else []
  }

  // Dots mean nothing, names are fields and numbers are indices.
  function Meaning(tokens: seq<Token>): seq<Segment> {
    if tokens == [] then [] else Meaning(tokens[..|tokens| - 1]) + MeaningOf(tokens[|tokens| - 1])
  }

  lemma Extend(tokens: seq<Token>, t: Token)
    ensures SpellAll(tokens + [t]) == SpellAll(tokens) + Spell(t)
    ensures Meaning(tokens + [t]) == Meaning(tokens) + MeaningOf(t)
    ensures IsSpelling(tokens) && IsToken(t) && MayFollow(tokens, t) ==> IsSpelling(tokens + [t])
  {
    assert (tokens + [t])[..|tokens|] == tokens;
  }

  /* ---- Spellings scan ---- */

  // The scan of a spelling: its meaning, a last name still pending.
  ghost predicate Scanned(st: Scan, tokens: seq<Token>) {
    && !st.inIndex && st.Flushed() == Meaning(tokens)
    && (st.current != "" ==> tokens != [] && tokens[|tokens| - 1] == Name(st.current))
    && (tokens != [] && tokens[|tokens| - 1].Name? ==> tokens[|tokens| - 1] == Name(st.current))
  }

  lemma TokenScans(st: Scan, before: seq<Token>, t: Token)
    requires Scanned(st, before) && IsToken(t) && MayFollow(before, t)
    ensures Feed(Some(st), Spell(t)).Some? && Scanned(Feed(Some(st), Spell(t)).value, before + [t])
  {
    Extend(before, t);
    match t {
      case Dot =>
        FeedOne(st, '.');
        assert Scan(st.Flushed(), "", false).Flushed() == st.Flushed() + [];
      case Name(text) =>
        FeedPlain(st.segments, "", false, text);
        assert "" + text == text;
      case Element(digits) =>
        FeedDigits(st, digits);
    }
  }

  lemma OneMoreScans(before: seq<Token>, t: Token)
    requires Feed(Some(START), SpellAll(before)).Some? && Scanned(Feed(Some(START), SpellAll(before)).value, before)
    requires IsToken(t) && MayFollow(before, t)
    ensures Feed(Some(START), SpellAll(before + [t])).Some?
    ensures Scanned(Feed(Some(START), SpellAll(before + [t])).value, before + [t])
  {
    Extend(before, t);
    FeedAppend(Some(START), SpellAll(before), Spell(t));
    TokenScans(Feed(Some(START), SpellAll(before)).value, before, t);
  }

  lemma {:induction false} SpellingScans(tokens: seq<Token>)
    requires IsSpelling(tokens)
    ensures Feed(Some(START), SpellAll(tokens)).Some? && Scanned(Feed(Some(START), SpellAll(tokens)).value, tokens)
  {
    if tokens == [] {
    } else {
      var n := |tokens| - 1;
      LastBack(tokens);
      SpellingScans(tokens[..n]);
      OneMoreScans(tokens[..n], tokens[n]);
    }
  }

  /* ---- Scans are of spellings ---- */

  // What has been scanned: a spelling, and within brackets the digits so far.
  ghost predicate Spells(tokens: seq<Token>, st: Scan, s: string) {
    && IsSpelling(tokens)
    && (if st.inIndex
        then s == SpellAll(tokens) + "[" + st.current && AllDigits(st.current) && st.segments == Meaning(tokens)
        else s == SpellAll(tokens) && Scanned(st, tokens))
  }

  lemma CloseText(a: string, digits: string)
    ensures a + "[" + digits + "]" == a + ("[" + digits + "]")
  {
  }

  lemma UsizeIsToken(digits: string)
    requires ParseUsize(digits).Some?
    ensures IsToken(Element(digits)) && MeaningOf(Element(digits)) == [Index(ParseUsize(digits).value)]
  {
  }

  lemma ClosedScan(tokens: seq<Token>, t: Token, st: Scan)
    requires t.Element? && !st.inIndex && st.current == "" && st.segments == Meaning(tokens) + MeaningOf(t)
    ensures Scanned(st, tokens + [t])
  {
    Extend(tokens, t);
    assert (tokens + [t])[|tokens + [t]| - 1] == t;
  }

  lemma CloseSpells(tokens: seq<Token>, st: Scan, s: string)
    requires st.inIndex && Spells(tokens, st, s) && ParseUsize(st.current).Some?
    ensures Spells(tokens + [Element(st.current)], Scan(st.segments + [Index(ParseUsize(st.current).value)], "", false), s + "]")
  {
    CloseText(SpellAll(tokens), st.current);
    UsizeIsToken(st.current);
    Extend(tokens, Element(st.current));
    ClosedScan(tokens, Element(st.current), Scan(st.segments + [Index(ParseUsize(st.current).value)], "", false));
  }

  lemma DigitSpells(tokens: seq<Token>, st: Scan, s: string, c: char)
    requires st.inIndex && Spells(tokens, st, s) && IsDigit(c)
    ensures Spells(tokens, st.(current := st.current + [c]), s + [c])
  {
    assert s + [c] == SpellAll(tokens) + "[" + (st.current + [c]);
  }

  lemma InnerCharSpells(tokens: seq<Token>, st: Scan, s: string, c: char) returns (after: seq<Token>)
    requires st.inIndex && Spells(tokens, st, s) && Next(st, c).Some?
    ensures Spells(after, Next(st, c).value, s + [c])
  {
    if c == ']' {
      CloseSpells(tokens, st, s);
      after := tokens + [Element(st.current)];
    } else {
      DigitSpells(tokens, st, s, c);
      after := tokens;
    }
  }

  lemma SameFront(a: seq<Segment>, b: seq<Segment>, x: Segment)
    requires a + [x] == b + [x]
    ensures a == b
  {
    assert a == (a + [x])[..|a|] && b == (b + [x])[..|b|];
  }

  lemma LastName(tokens: seq<Token>, text: string)
    requires IsSpelling(tokens) && tokens != [] && tokens[|tokens| - 1] == Name(text)
    ensures var front := tokens[..|tokens| - 1];
      && IsSpelling(front) && MayFollow(front, Name(text)) && IsToken(Name(text))
      && SpellAll(tokens) == SpellAll(front) + text && Meaning(tokens) == Meaning(front) + [Field(text)]
  {
  }

  lemma NameGrows(text: string, c: char)
    requires IsToken(Name(text)) && c != '.' && c != '[' && c != ']'
    ensures IsToken(Name(text + [c]))
  {
  }

  lemma LongerSpells(front: seq<Token>, st: Scan, s: string, c: char)
    requires IsSpelling(front) && MayFollow(front, Name(st.current)) && IsToken(Name(st.current))
    requires !st.inIndex && s == SpellAll(front) + st.current && st.segments == Meaning(front)
    requires c != '.' && c != '[' && c != ']'
    ensures Spells(front + [Name(st.current + [c])], st.(current := st.current + [c]), s + [c])
  {
    NameGrows(st.current, c);
    Extend(front, Name(st.current + [c]));
    assert s + [c] == SpellAll(front) + (st.current + [c]);
  }

  lemma LongerName(tokens: seq<Token>, st: Scan, s: string, c: char) returns (after: seq<Token>)
    requires !st.inIndex && Spells(tokens, st, s) && st.current != "" && c != '.' && c != '[' && c != ']'
    ensures Spells(after, st.(current := st.current + [c]), s + [c])
  {
    var front := tokens[..|tokens| - 1];
    LastName(tokens, st.current);
    SameFront(st.segments, Meaning(front), Field(st.current));
    LongerSpells(front, st, s, c);
    after := front + [Name(st.current + [c])];
  }

  lemma DotSpells(tokens: seq<Token>, st: Scan, s: string)
    requires !st.inIndex && Spells(tokens, st, s)
    ensures Spells(tokens + [Dot], Scan(st.Flushed(), "", false), s + ".")
  {
    Extend(tokens, Dot);
    assert Scan(st.Flushed(), "", false).Flushed() == st.Flushed() + [];
  }

  lemma OpenSpells(tokens: seq<Token>, st: Scan, s: string)
    requires !st.inIndex && Spells(tokens, st, s)
    ensures Spells(tokens, Scan(st.Flushed(), "", true), s + "[")
  {
    assert s + "[" == SpellAll(tokens) + "[" + "";
  }

  lemma NameStarts(tokens: seq<Token>, st: Scan, s: string, c: char)
    requires !st.inIndex && Spells(tokens, st, s) && st.current == "" && c != '.' && c != '[' && c != ']'
    ensures Spells(tokens + [Name([c])], st.(current := [c]), s + [c])
  {
    Extend(tokens, Name([c]));
  }

  lemma CharSpells(tokens: seq<Token>, st: Scan, s: string, c: char) returns (after: seq<Token>)
    requires Spells(tokens, st, s) && Next(st, c).Some?
    ensures Spells(after, Next(st, c).value, s + [c])
  {
    if st.inIndex {
      after := InnerCharSpells(tokens, st, s, c);
    } else if c == '.' {
      DotSpells(tokens, st, s);
      after := tokens + [Dot];
    } else if c == '[' {
      OpenSpells(tokens, st, s);
      after := tokens;
    } else if st.current == "" {
      NameStarts(tokens, st, s, c);
      after := tokens + [Name([c])];
      assert st.current + [c] == [c];
    } else {
      after := LongerName(tokens, st, s, c);
    }
  }

  lemma {:induction false} ScanSpells(s: string) returns (tokens: seq<Token>)
    requires Feed(Some(START), s).Some?
    ensures Spells(tokens, Feed(Some(START), s).value, s)
  {
    if s == "" {
      tokens := [];
    } else {
      var n := |s| - 1;
      LastBack(s);
      var before := ScanSpells(s[..n]);
      tokens := CharSpells(before, Feed(Some(START), s[..n]).value, s[..n], s[n]);
    }
  }

  /* ---- The grammar ---- */

  // A text is accepted with given segments exactly when, less outer white space, it is
  // spelled by tokens that mean them, and there are any.
  lemma AcceptedExactlyWhen(s: string, segs: seq<Segment>)
    ensures Parse(s) == Some(segs) <==>
            segs != [] && exists tokens :: IsSpelling(tokens) && SpellAll(tokens) == Trim(s) && Meaning(tokens) == segs
  {
    if Parse(s) == Some(segs) {
      var tokens := ScanSpells(Trim(s));
    }
    if segs != [] {
      if tokens :| IsSpelling(tokens) && SpellAll(tokens) == Trim(s) && Meaning(tokens) == segs {
        SpellingScans(tokens);
      }
    }
  }
}
