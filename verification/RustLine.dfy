/** A line of Rust as tokens: what the two line scanners are meant to see in it. */
module RustLine {

  /** A character of an ordinary string: itself, or escaped by a backslash. */
  datatype StrItem = Plain(c: char) | Escaped(c: char) {
    predicate Valid() {
      Plain? ==> c != '"' && c != '\\'
    }

    function Text(): string {
      if Plain? then [c] else ['\\', c]
    }
  }

  /**
   One token that ends on this line. `Apostrophe` is a lifetime's; its name is code. `WideLit` is a character literal
   in a line read as bytes, of a character that takes several.
   */
  datatype Token =
    | Code(c: char)
    | Str(items: seq<StrItem>)
    | Raw(hashes: nat, content: string)
    | CharLit(c: char)
    | WideLit(bytes: string)
    | EscapedChar(body: string)
    | QuoteChar
    | Apostrophe
  {
    function Text(): string {
      match this
      case Code(c) => [c]
      case Str(items) => "\"" + ItemsText(items) + "\""
      case Raw(hashes, content) => "r" + Hashes(hashes) + "\"" + content + "\"" + Hashes(hashes)
      case CharLit(c) => ['\'', c, '\'']
      case WideLit(bytes) => "'" + bytes + "'"
      case EscapedChar(body) => "'\\" + body + "'"
      case QuoteChar => "'\\''"
      case Apostrophe => "'"
    }
  }

  /** How the line ends: plainly, in a comment, or inside a literal that goes on. */
  datatype Tail =
    | Nothing
    | Comment(text: string)
    | OpenStr(items: seq<StrItem>, backslash: bool)
    | OpenRaw(hashes: nat, content: string)
    | OpenEscape(body: string)
  {
    function Text(): string {
      match this
      case Nothing => ""
      case Comment(text) => "//" + text
      case OpenStr(items, backslash) => "\"" + ItemsText(items) + (if backslash then "\\" else "")
      case OpenRaw(hashes, content) => "r" + Hashes(hashes) + "\"" + content
      case OpenEscape(body) => "'\\" + body
    }

    ghost predicate Valid() {
      match this
      case Nothing => true
      case Comment(_) => true
      case OpenStr(items, _) => ValidItems(items)
      case OpenRaw(hashes, content) => NeverCloses(content, hashes)
      case OpenEscape(body) => '\'' !in body
    }
  }

  predicate ValidItems(items: seq<StrItem>) {
    forall i | 0 <= i < |items| :: items[i].Valid()
  }

  function ItemsText(items: seq<StrItem>): string {
    if items == [] then "" else items[0].Text() + ItemsText(items[1..])
  }

  function Hashes(n: nat): (s: string)
    ensures |s| == n && forall i | 0 <= i < n :: s[i] == '#'
  {
    seq(n, _ => '#')
  }

  /** How many `#` `s` starts with. */
  function HashRun(s: string): (n: nat)
    ensures n <= |s| && forall i | 0 <= i < n :: s[i] == '#'
    ensures n < |s| ==> s[n] != '#'
  {
    if s != "" && s[0] == '#' then 1 + HashRun(s[1..]) else 0
  }

  /** No quote in `content` is followed by `hashes` hashes inside it. */
  ghost predicate NeverCloses(content: string, hashes: nat) {
    forall i | 0 <= i < |content| :: content[i] == '"' ==> HashRun(content[i + 1..]) < hashes
  }

  function Render(tokens: seq<Token>, tail: Tail): string {
    if tokens == [] then tail.Text() else tokens[0].Text() + Render(tokens[1..], tail)
  }

  /** `s` goes on as a raw string after its `r`: hashes, then a quote. */
  predicate OpensRaw(s: string) {
    var n := HashRun(s);
    n < |s| && s[n] == '"'
  }

  function Drop(s: string, n: nat): string {
    if n >= |s| then "" else s[n..]
  }

  lemma DropTwice(s: string, i: nat, n: nat)
    ensures Drop(Drop(s, i), n) == Drop(s, i + n)
  {
  }

  lemma HashRunOf(n: nat, rest: string)
    ensures HashRun(Hashes(n) + rest) >= n
    ensures rest != "" && rest[0] != '#' ==> HashRun(Hashes(n) + rest) == n
    ensures rest == "" ==> HashRun(Hashes(n) + rest) == n
  {
    var s := Hashes(n) + rest;
    assert forall i | 0 <= i < n :: s[i] == '#';
    if rest != "" && rest[0] != '#' {
      assert s[n] != '#';
    }
  }
}
