/** Dotted key paths such as `wg[0].peers[1].public_key`: the scanner, the printed form
    and how the two fit together. */
module KeyPath {
  import opened Prelude
  import opened Text

  datatype Segment = Field(name: string) | Index(i: nat)

  const USIZE_LIMIT := 0x1_0000_0000_0000_0000

  // The Unicode White_Space characters, which `trim` removes.
  predicate IsWhite(c: char) {
    var n := c as int;
    || 0x09 <= n <= 0x0d || n == 0x20 || n == 0x85 || n == 0xa0 || n == 0x1680
    || 0x2000 <= n <= 0x200a || n == 0x2028 || n == 0x2029 || n == 0x202f || n == 0x205f || n == 0x3000
  }

  // Below the ASCII limit those are the blank, the tab, the two line ends, and the two
  // vertical breaks.
  lemma AsciiWhite(c: char)
    requires c as int < 0x80
    ensures IsWhite(c) <==> c in " \t\n\r" || c as int == 0x0b || c as int == 0x0c
  {
  }

  function Trim(s: string): string {
    if s == "" then s
    else if IsWhite(s[0]) then Trim(s[1..])
    else if IsWhite(s[|s| - 1]) then Trim(s[..|s| - 1])
    else s
  }

  predicate Trimmed(s: string) {
    s == "" || (!IsWhite(s[0]) && !IsWhite(s[|s| - 1]))
  }

  // str::parse::<usize> on a text of digits.
  function ParseUsize(s: string): (r: Option<nat>)
    ensures r.Some? ==> r.value < USIZE_LIMIT
  {
    if s == "" || !AllDigits(s) || NumberOf(s) >= USIZE_LIMIT then None else Some(NumberOf(s))
  }

  /* ---- The scanner, a character at a time ---- */

  datatype Scan = Scan(segments: seq<Segment>, current: string, inIndex: bool) {
    // The segments with a pending field pushed.
    function Flushed(): seq<Segment> {
      if current == "" then segments else segments + [Field(current)]
    }
  }

  function Next(st: Scan, c: char): Option<Scan> {
    if c == '.' then
      if st.inIndex then None else Some(Scan(st.Flushed(), "", false))
    else if c == '[' then
      if st.inIndex then None else Some(Scan(st.Flushed(), "", true))
    else if c == ']' then
      if !st.inIndex || ParseUsize(st.current).None? then None
      else Some(Scan(st.segments + [Index(ParseUsize(st.current).value)], "", false))
    else if st.inIndex && !IsDigit(c) then None
    else Some(st.(current := st.current + [c]))
  }

  // A bad character ends the scan for good.
  function Advance(st: Option<Scan>, c: char): Option<Scan> {
    match st
    case None => None
    case Some(before) => Next(before, c)
  }

  function Feed(st: Option<Scan>, s: string): Option<Scan> {
    if s == "" then st else Advance(Feed(st, s[..|s| - 1]), s[|s| - 1])
  }

  const START := Scan([], "", false)

  function Parse(s: string): Option<seq<Segment>> {
    match Feed(Some(START), Trim(s))
    case None => None
    case Some(st) => if st.inIndex || st.Flushed() == [] then None else Some(st.Flushed())
  }

  lemma FeedStep(s: string, i: nat)
    requires i < |s|
    ensures Feed(Some(START), s[..i + 1]) == Advance(Feed(Some(START), s[..i]), s[i])
  {
    assert s[..i + 1][..i] == s[..i];
  }

  // Once bad, always bad.
  lemma {:induction false} FeedFails(s: string, i: nat)
    requires i <= |s| && Feed(Some(START), s[..i]).None?
    ensures Feed(Some(START), s).None?
    decreases |s| - i
  {
    if i < |s| {
      FeedStep(s, i);
      FeedFails(s, i + 1);
    } else {
      assert s[..i] == s;
    }
  }

  // KeyPath::parse
  method ParseKeyPath(text: string) returns (r: Option<seq<Segment>>)
    ensures r == Parse(text)
  {
    var s := Trim(text);
    if s == "" {
      return None;
    }
    var segments: seq<Segment>, current, inIndex, bad := [], "", false, false;
    var i := 0;
    while i < |s|
      invariant i <= |s| && !bad
      invariant Feed(Some(START), s[..i]) == Some(Scan(segments, current, inIndex))
    {
      var c := s[i];
      FeedStep(s, i);
      if c == '.' {
        if inIndex {
          bad := true;
          break;
        }
        if current != "" {
          segments := segments + [Field(current)];
          current := "";
        }
      } else if c == '[' {
        if inIndex {
          bad := true;
          break;
        }
        if current != "" {
          segments := segments + [Field(current)];
          current := "";
        }
        inIndex := true;
      } else if c == ']' {
        if !inIndex {
          bad := true;
          break;
        }
        var idx := ParseUsize(current);
        if idx.None? {
          bad := true;
          break;
        }
        segments := segments + [Index(idx.value)];
        current := "";
        inIndex := false;
      } else if inIndex {
        if !IsDigit(c) {
          bad := true;
          break;
        }
        current := current + [c];
      } else {
        current := current + [c];
      }
      i := i + 1;
    }
    if bad {
      FeedFails(s, i + 1);
      return None;
    }
    assert s[..i] == s;
    if inIndex {
      return None;
    }
    if current != "" {
      segments := segments + [Field(current)];
    }
    if segments == [] {
      return None;
    }
    return Some(segments);
  }

  lemma FeedLast(st: Option<Scan>, s: string, c: char)
    ensures Feed(st, s + [c]) == Advance(Feed(st, s), c)
  {
    assert (s + [c])[..|s|] == s;
  }

  lemma {:induction false} FeedAppend(st: Option<Scan>, a: string, b: string)
    ensures Feed(st, a + b) == Feed(Feed(st, a), b)
  {
    if b == "" {
      assert a + b == a;
    } else {
      var init, c := b[..|b| - 1], b[|b| - 1];
      FeedAppend(st, a, init);
      assert a + b == (a + init) + [c];
      FeedLast(st, a + init, c);
    }
  }

  /* ---- The printed form ---- */

  predicate Plain(c: char) {
    c != '.' && c != '[' && c != ']'
  }

  predicate WellFormed(seg: Segment) {
    match seg
    case Field(name) => name != "" && forall i :: 0 <= i < |name| ==> Plain(name[i])
    case Index(i) => i < USIZE_LIMIT
  }

  predicate AllWellFormed(segs: seq<Segment>) {
    forall i :: 0 <= i < |segs| ==> WellFormed(segs[i])
  }

  // The text of the n-th segment of a path.
  function Piece(seg: Segment, n: nat): string {
    match seg
    case Field(name) => if n == 0 then name else "." + name
    case Index(i) => "[" + Decimal(i) + "]"
  }

  function Print(segs: seq<Segment>): string {
    if segs == [] then "" else Print(segs[..|segs| - 1]) + Piece(segs[|segs| - 1], |segs| - 1)
  }

  lemma {:induction false} FeedPlain(segs: seq<Segment>, current: string, inIndex: bool, text: string)
    requires forall i :: 0 <= i < |text| ==> Plain(text[i]) && (inIndex ==> IsDigit(text[i]))
    ensures Feed(Some(Scan(segs, current, inIndex)), text) == Some(Scan(segs, current + text, inIndex))
  {
    if text == "" {
      assert current + text == current;
    } else {
      var n := |text| - 1;
      FeedPlain(segs, current, inIndex, text[..n]);
      assert (current + text[..n]) + [text[n]] == current + text;
    }
  }

  lemma FeedOne(st: Scan, c: char)
    ensures Feed(Some(st), [c]) == Next(st, c)
  {
    assert [c][..0] == "";
  }

  lemma FeedDigits(st: Scan, digits: string)
    requires !st.inIndex && ParseUsize(digits).Some?
    ensures Feed(Some(st), "[" + digits + "]") ==
            Some(Scan(st.Flushed() + [Index(ParseUsize(digits).value)], "", false))
  {
    var inside := Scan(st.Flushed(), "", true);
    FeedAppend(Some(st), "[" + digits, "]");
    FeedAppend(Some(st), "[", digits);
    FeedOne(st, '[');
    FeedPlain(st.Flushed(), "", true, digits);
    assert "" + digits == digits;
    var filled := inside.(current := digits);
    assert Feed(Some(st), "[" + digits) == Some(filled);
    assert Feed(Some(st), "[" + digits + "]") == Feed(Some(filled), "]");
    FeedOne(filled, ']');
    assert Next(filled, ']') == Some(Scan(filled.segments + [Index(ParseUsize(digits).value)], "", false));
  }

  lemma FeedIndex(st: Scan, i: nat)
    requires !st.inIndex && i < USIZE_LIMIT
    ensures Feed(Some(st), "[" + Decimal(i) + "]") == Some(Scan(st.Flushed() + [Index(i)], "", false))
  {
    NumberOfDecimal(i);
    FeedDigits(st, Decimal(i));
  }

  lemma FeedField(st: Scan, name: string)
    requires !st.inIndex && forall i :: 0 <= i < |name| ==> Plain(name[i])
    ensures Feed(Some(st), "." + name) == Some(Scan(st.Flushed(), name, false))
  {
    FeedAppend(Some(st), ".", name);
    FeedOne(st, '.');
    FeedPlain(st.Flushed(), "", false, name);
    assert "" + name == name;
  }

  lemma FeedPiece(st: Scan, seg: Segment, n: nat)
    requires !st.inIndex && WellFormed(seg) && (n == 0 ==> st == START)
    ensures var after := Feed(Some(st), Piece(seg, n));
            after.Some? && after.value.Flushed() == st.Flushed() + [seg] && !after.value.inIndex
  {
    match seg {
      case Field(name) =>
        if n == 0 {
          FeedPlain([], "", false, name);
          assert "" + name == name;
        } else {
          FeedField(st, name);
        }
      case Index(i) =>
        FeedIndex(st, i);
    }
  }

  // Scanning a printed path leaves its segments, the last field possibly pending.
  ghost predicate Leaves(st: Option<Scan>, segs: seq<Segment>) {
    && st.Some? && st.value.Flushed() == segs && !st.value.inIndex
    && (segs == [] ==> st.value == START)
  }

  lemma LeavesMore(before: string, segs: seq<Segment>, seg: Segment)
    requires Leaves(Feed(Some(START), before), segs) && WellFormed(seg)
    ensures Leaves(Feed(Some(START), before + Piece(seg, |segs|)), segs + [seg])
  {
    FeedAppend(Some(START), before, Piece(seg, |segs|));
    FeedPiece(Feed(Some(START), before).value, seg, |segs|);
  }

  lemma PrintLast(init: seq<Segment>, last: Segment)
    ensures Print(init + [last]) == Print(init) + Piece(last, |init|)
  {
    assert (init + [last])[..|init|] == init;
  }

  lemma {:induction false} FeedPrint(segs: seq<Segment>)
    requires AllWellFormed(segs)
    ensures Leaves(Feed(Some(START), Print(segs)), segs)
  {
    if segs == [] {
    } else {
      var n := |segs| - 1;
      var init, last := segs[..n], segs[n];
      assert segs == init + [last];
      FeedPrint(init);
      LeavesMore(Print(init), init, last);
      PrintLast(init, last);
    }
  }

  /* ---- Whitespace is never lost inside ---- */

  function Whites(s: string): nat {
    if s == "" then 0 else Whites(s[..|s| - 1]) + if IsWhite(s[|s| - 1]) then 1 else 0
  }

  function WhitesIn(segs: seq<Segment>): nat {
    if segs == [] then 0
    else WhitesIn(segs[..|segs| - 1]) +
         match segs[|segs| - 1]
         case Field(name) => Whites(name)
         case Index(_) => 0
  }

  lemma {:induction false} WhitesAppend(a: string, b: string)
    ensures Whites(a + b) == Whites(a) + Whites(b)
  {
    if b == "" {
      assert a + b == a;
    } else {
      WhitesAppend(a, b[..|b| - 1]);
      assert (a + b)[..|a + b| - 1] == a + b[..|b| - 1];
    }
  }

  lemma WhitesInAppend(segs: seq<Segment>, seg: Segment)
    ensures WhitesIn(segs + [seg]) == WhitesIn(segs) + if seg.Field? then Whites(seg.name) else 0
  {
    assert (segs + [seg])[..|segs|] == segs;
  }

  // A pending text: free of separators, and digits only inside an index.
  ghost predicate Clean(current: string, inIndex: bool) {
    forall i :: 0 <= i < |current| ==> Plain(current[i]) && (inIndex ==> IsDigit(current[i]))
  }

  // What the scanner keeps: well-formed segments, a clean pending text, every white space.
  ghost predicate Kept(st: Scan, text: string) {
    && AllWellFormed(st.segments)
    && Clean(st.current, st.inIndex)
    && WhitesIn(st.segments) + Whites(st.current) == Whites(text)
  }

  lemma WhitesOne(text: string, c: char)
    ensures Whites(text + [c]) == Whites(text) + if IsWhite(c) then 1 else 0
  {
    assert (text + [c])[..|text|] == text;
  }

  lemma FlushKeeps(st: Scan)
    requires AllWellFormed(st.segments) && Clean(st.current, st.inIndex)
    ensures AllWellFormed(st.Flushed()) && WhitesIn(st.Flushed()) == WhitesIn(st.segments) + Whites(st.current)
  {
    WhitesInAppend(st.segments, Field(st.current));
  }

  lemma IndexKeeps(st: Scan, i: nat)
    requires AllWellFormed(st.segments) && i < USIZE_LIMIT
    ensures AllWellFormed(st.segments + [Index(i)]) && WhitesIn(st.segments + [Index(i)]) == WhitesIn(st.segments)
  {
    WhitesInAppend(st.segments, Index(i));
  }

  lemma CleanPush(current: string, inIndex: bool, c: char)
    requires Clean(current, inIndex) && Plain(c) && (inIndex ==> IsDigit(c))
    ensures Clean(current + [c], inIndex)
  {
  }

  lemma PushKeeps(st: Scan, text: string, c: char)
    requires Kept(st, text) && Plain(c) && (st.inIndex ==> IsDigit(c))
    ensures Kept(Scan(st.segments, st.current + [c], st.inIndex), text + [c])
  {
    WhitesOne(text, c);
    WhitesOne(st.current, c);
    CleanPush(st.current, st.inIndex, c);
  }

  lemma SeparatorKeeps(st: Scan, text: string, c: char)
    requires Kept(st, text) && (c == '.' || c == '[') && !st.inIndex
    ensures Kept(Scan(st.Flushed(), "", c == '['), text + [c])
  {
    WhitesOne(text, c);
    FlushKeeps(st);
    assert Clean("", c == '[');
  }

  lemma {:induction false} DigitsAreNotWhite(s: string)
    requires AllDigits(s)
    ensures Whites(s) == 0
  {
    if s == "" {
    } else {
      DigitsAreNotWhite(s[..|s| - 1]);
    }
  }

  lemma CloseKeeps(st: Scan, text: string, i: nat)
    requires Kept(st, text) && st.inIndex && i < USIZE_LIMIT
    ensures Kept(Scan(st.segments + [Index(i)], "", false), text + "]")
  {
    WhitesOne(text, ']');
    IndexKeeps(st, i);
    DigitsAreNotWhite(st.current);
    assert Clean("", false);
  }

  lemma NextKeeps(st: Scan, text: string, c: char)
    requires Kept(st, text) && Next(st, c).Some?
    ensures Kept(Next(st, c).value, text + [c])
  {
    if Plain(c) {
      PushKeeps(st, text, c);
    } else if c == ']' {
      CloseKeeps(st, text, ParseUsize(st.current).value);
    } else {
      SeparatorKeeps(st, text, c);
    }
  }

  lemma {:induction false} FeedKeeps(s: string)
    requires Feed(Some(START), s).Some?
    ensures Kept(Feed(Some(START), s).value, s)
  {
    if s == "" {
    } else {
      var n := |s| - 1;
      FeedKeeps(s[..n]);
      NextKeeps(Feed(Some(START), s[..n]).value, s[..n], s[n]);
      assert s == s[..n] + [s[n]];
    }
  }

  lemma ParseKeeps(s: string)
    requires Parse(s).Some?
    ensures AllWellFormed(Parse(s).value) && WhitesIn(Parse(s).value) == Whites(Trim(s))
  {
    FeedKeeps(Trim(s));
    FlushKeeps(Feed(Some(START), Trim(s)).value);
  }

  lemma {:induction false} TrimLoses(s: string)
    ensures Trimmed(s) ==> Trim(s) == s
    ensures !Trimmed(s) ==> Whites(Trim(s)) < Whites(s)
    ensures Trimmed(Trim(s))
    decreases |s|
  {
    if s == "" {
    } else {
      if IsWhite(s[0]) {
        TrimLoses(s[1..]);
        WhitesAppend(s[..1], s[1..]);
        assert s == s[..1] + s[1..];
        assert s[..1][..0] == "";
      } else if IsWhite(s[|s| - 1]) {
        TrimLoses(s[..|s| - 1]);
      }
    }
  }

  predicate AllWhite(s: string) {
    forall i :: 0 <= i < |s| ==> IsWhite(s[i])
  }

  lemma TrimmedStays(m: string)
    requires Trimmed(m)
    ensures Trim(m) == m
  {
  }

  lemma {:induction false} TrimTail(m: string, b: string)
    requires Trimmed(m) && AllWhite(b) && m != ""
    ensures Trim(m + b) == m
    decreases |b|
  {
    if b == "" {
      assert m + b == m;
    } else {
      var n := |b| - 1;
      TrimTail(m, b[..n]);
      assert (m + b)[..|m + b| - 1] == m + b[..n];
      assert (m + b)[0] == m[0] && (m + b)[|m + b| - 1] == b[n];
    }
  }

  lemma {:induction false} TrimWhite(b: string)
    requires AllWhite(b)
    ensures Trim(b) == ""
  {
    if b == "" {
    } else {
      TrimWhite(b[1..]);
    }
  }

  // Trimming takes exactly the white space off both ends of a text.
  lemma {:induction false} TrimExactly(a: string, m: string, b: string)
    requires AllWhite(a) && AllWhite(b) && Trimmed(m)
    ensures Trim(a + m + b) == m
    decreases |a|
  {
    if a == "" {
      assert a + m + b == m + b;
      if m == "" {
        assert m + b == b;
        TrimWhite(b);
      } else {
        TrimTail(m, b);
      }
    } else {
      TrimExactly(a[1..], m, b);
      assert (a + m + b)[1..] == a[1..] + m + b;
    }
  }

  // So white space around a path makes no difference.
  lemma ParseIgnoresOuterWhite(a: string, m: string, b: string)
    requires AllWhite(a) && AllWhite(b) && Trimmed(m)
    ensures Parse(a + m + b) == Parse(m)
  {
    TrimExactly(a, m, b);
    TrimmedStays(m);
  }

  /* ---- Main results ---- */

  // Every accepted text yields at least one segment, all well formed.
  lemma AcceptedAreWellFormed(s: string)
    requires Parse(s).Some?
    ensures Parse(s).value != [] && AllWellFormed(Parse(s).value)
  {
    ParseKeeps(s);
  }

  // Parsing the printed form gives the segments back exactly when the text has no white
  // space at either end.
  lemma PrintThenParse(segs: seq<Segment>)
    requires segs != [] && AllWellFormed(segs)
    ensures Parse(Print(segs)) == Some(segs) <==> Trimmed(Print(segs))
  {
    var text := Print(segs);
    FeedPrint(segs);
    TrimLoses(text);
    if Parse(text) == Some(segs) {
      ParseKeeps(text);
      FeedKeeps(text);
      FlushKeeps(Feed(Some(START), text).value);
    }
  }

  // So printing is a normal form of every accepted text whose printed form keeps clear
  // of outer white space.
  lemma NormalForm(s: string)
    requires Parse(s).Some?
    ensures Parse(Print(Parse(s).value)) == Parse(s) <==> Trimmed(Print(Parse(s).value))
  {
    AcceptedAreWellFormed(s);
    PrintThenParse(Parse(s).value);
  }

  // A single field written after a dot.
  lemma DottedField(name: string)
    requires name != "" && !IsWhite(name[|name| - 1]) && forall i :: 0 <= i < |name| ==> Plain(name[i])
    ensures Parse("." + name) == Some([Field(name)])
  {
    TrimLoses("." + name);
    FeedField(START, name);
    assert Scan([], name, false).Flushed() == [Field(name)];
  }

  lemma PrintOneField(name: string)
    ensures Print([Field(name)]) == name
  {
    assert [Field(name)][..0] == [];
  }

  // It is not one of `. b`, whose only field starts with a space.
  lemma NormalFormFails()
    ensures Parse(". b") == Some([Field(" b")]) && Parse(Print([Field(" b")])) != Some([Field(" b")])
  {
    DottedField(" b");
    assert "." + " b" == ". b";
    AcceptedAreWellFormed(". b");
    PrintOneField(" b");
    PrintThenParse([Field(" b")]);
  }
}
