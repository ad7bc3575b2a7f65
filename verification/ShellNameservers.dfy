/** How the network script turns the exported name servers into one line of text. */
module ShellNameservers {
  import opened Prelude
  import opened ConfigTree
  import opened ShellExport
  import opened Schema
  import opened ShellEval
  import opened ShellArrays

  /* ---- The joined text ---- */

  // The loop's text: the first nonempty value stands alone, later ones follow a space.
  function SpacedFrom(text: string, values: seq<string>): string
    decreases |values|
  {
    if values == [] then text
    else SpacedFrom(if text == "" then values[0] else text + " " + values[0], values[1..])
  }

  function Suffix(values: seq<string>): string {
    if values == [] then "" else " " + values[0] + Suffix(values[1..])
  }

  // The values with a space between any two.
  function JoinSpaces(values: seq<string>): string {
    if values == [] then "" else values[0] + Suffix(values[1..])
  }

  function DropEmpty(values: seq<string>): seq<string> {
    if values != [] && values[0] == "" then DropEmpty(values[1..]) else values
  }

  lemma {:induction false} SpacedOnto(text: string, values: seq<string>)
    requires text != ""
    ensures SpacedFrom(text, values) == text + Suffix(values)
    decreases |values|
  {
    if values == [] {
    } else {
      SpacedOnto(text + " " + values[0], values[1..]);
      assert text + " " + values[0] + Suffix(values[1..]) == text + (" " + values[0] + Suffix(values[1..]));
    }
  }

  // The loop joins the values with spaces, less any empty ones at the front.
  lemma {:induction false} SpacedIsJoined(values: seq<string>)
    ensures SpacedFrom("", values) == JoinSpaces(DropEmpty(values))
  {
    if values == [] {
    } else if values[0] == "" {
      SpacedIsJoined(values[1..]);
    } else {
      SpacedOnto(values[0], values[1..]);
    }
  }

  /* ---- Reading it back ---- */

  // The words of a text, between spaces.
  function WordsFrom(word: string, s: string): seq<string>
    decreases |s|
  {
    if s == "" then (if word == "" then [] else [word])
    else if s[0] == ' ' then (if word == "" then [] else [word]) + WordsFrom("", s[1..])
    else WordsFrom(word + [s[0]], s[1..])
  }

  predicate IsWord(s: string) {
    s != "" && ' ' !in s
  }

  predicate AllWords(values: seq<string>) {
    forall i :: 0 <= i < |values| ==> IsWord(values[i])
  }

  lemma {:induction false} WordsAreWords(word: string, s: string)
    requires ' ' !in word
    ensures AllWords(WordsFrom(word, s))
    decreases |s|
  {
    if s == "" {
    } else if s[0] == ' ' {
      WordsAreWords("", s[1..]);
    } else {
      WordsAreWords(word + [s[0]], s[1..]);
    }
  }

  lemma {:induction false} WordsOfWord(word: string, more: string, s: string)
    requires ' ' !in more
    ensures WordsFrom(word, more + s) == WordsFrom(word + more, s)
    decreases |more|
  {
    if more == "" {
      assert more + s == s && word + more == word;
    } else {
      assert (more + s)[1..] == more[1..] + s;
      WordsOfWord(word + [more[0]], more[1..], s);
      assert word + [more[0]] + more[1..] == word + more;
    }
  }

  lemma {:induction false} WordsOfSuffix(word: string, values: seq<string>)
    requires IsWord(word) && AllWords(values)
    ensures WordsFrom(word, Suffix(values)) == [word] + values
    decreases |values|
  {
    if values == [] {
    } else {
      assert AllWords(values[1..]);
      var rest := values[0] + Suffix(values[1..]);
      assert Suffix(values) == " " + rest && (" " + rest)[1..] == rest;
      WordsOfWord("", values[0], Suffix(values[1..]));
      assert "" + values[0] == values[0];
      WordsOfSuffix(values[0], values[1..]);
      assert values == [values[0]] + values[1..];
    }
  }

  // The words of the text are the values, exactly when every value is one word.
  lemma WordsOfJoined(values: seq<string>)
    ensures WordsFrom("", SpacedFrom("", values)) == values <==> AllWords(values)
  {
    WordsAreWords("", SpacedFrom("", values));
    if AllWords(values) && values != [] {
      SpacedIsJoined(values);
      WordsOfWord("", values[0], Suffix(values[1..]));
      assert "" + values[0] == values[0];
      WordsOfSuffix(values[0], values[1..]);
      assert values == [values[0]] + values[1..];
    }
  }

  /* ---- The script ---- */

  lemma SubtreeOfSection(config: Tree, name: string, p: Path)
    requires Subtree(config, [Key(name)] + p).Some?
    ensures config.Node? && name in config.fields
    ensures Subtree(config.fields[name], p) == Subtree(config, [Key(name)] + p)
  {
    assert ([Key(name)] + p)[1..] == p;
  }

  lemma DnsBase()
    ensures Join([Fold("ipv4")] + Texts([Key("dns")])) == "IPV4_DNS"
  {
    assert Fold("ipv4") == "IPV4" && Fold("dns") == "DNS";
    assert [Fold("ipv4")] + Texts([Key("dns")]) == ["IPV4", "DNS"];
    assert ["IPV4", "DNS"][1..] == ["DNS"] && ["DNS"][1..] == [];
    assert JoinTail(["DNS"]) == "_DNS";
  }

  // From the configuration, through export and eval, to the line of name servers, in a
  // shell with any variables.
  method Nameservers(config: Tree, start: Env, ghost servers: seq<Tree>, ghost texts: seq<string>) returns (nameservers: string)
    requires Conforms(config, CONFIG)
    requires Subtree(config, [Key("ipv4")] + [Key("dns")]) == Some(List(servers))
    requires |texts| == |servers| && forall i :: 0 <= i < |servers| ==> IsScalar(servers[i]) && texts[i] == ScalarText(servers[i])
    ensures nameservers == JoinSpaces(DropEmpty(texts))
    ensures WordsFrom("", nameservers) == texts <==> AllWords(texts)
  {
    SubtreeOfSection(config, "ipv4", [Key("dns")]);
    var env := ListAndEval(config, Some("ipv4"), start);
    DnsBase();
    ElementsRecovered(env, config.fields["ipv4"], [Fold("ipv4")], [Key("dns")], servers, "IPV4_DNS");
    var values := ReadArray(env, "IPV4_DNS");
    assert values == texts;
    nameservers := "";
    for i := 0 to |values|
      invariant SpacedFrom(nameservers, values[i..]) == SpacedFrom("", values)
    {
      assert values[i..][1..] == values[i + 1..];
      if nameservers == "" {
        nameservers := values[i];
      } else {
        nameservers := nameservers + " " + values[i];
      }
    }
    assert values[|values|..] == [];
    SpacedIsJoined(values);
    WordsOfJoined(values);
  }
}
