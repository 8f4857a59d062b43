/**
 * The text `splitBase64` stores in `formattedBase64` (src/app/page.tsx line 153):
 *
 *   export default base64Image = [
 *     "<chunk 1>",
 *     "<chunk 2>"
 *   ].join("");
 *
 * and, as its partner, an evaluator that reads such a text the way a JavaScript
 * host reads the array of string literals and its `join("")`.
 */
module Literal {
  import opened Wrappers
  import Chunking

  const Header: string := "export default base64Image = [\n  "
  const Separator: string := ",\n  "
  const Footer: string := "\n].join(\"\");"

  /** `"${chunk}"` */
  function Quote(c: string): string {
    "\"" + c + "\""
  }

  /** `chunks.map(chunk => `"${chunk}"`)` */
  function QuoteAll(cs: seq<string>): (qs: seq<string>)
    ensures |qs| == |cs|
  {
    if |cs| == 0 then [] else [Quote(cs[0])] + QuoteAll(cs[1..])
  }

  /** `Array.prototype.join(sep)`: no separator before the first part, none after the last. */
  function Join(parts: seq<string>, sep: string): string {
    if |parts| == 0 then []
    else if |parts| == 1 then parts[0]
    else parts[0] + sep + Join(parts[1..], sep)
  }

  /** The template literal of line 153. */
  function Render(chunks: seq<string>): string {
    Header + Join(QuoteAll(chunks), Separator) + Footer
  }

  /**
   * A character that may stand unescaped in a JavaScript string literal between
   * double quotes and means itself there.
   */
  predicate PlainChar(c: char) {
    c != '"' && c != '\\' && c != '\n' && c != '\r'
  }

  predicate PlainText(s: string) {
    forall i :: 0 <= i < |s| ==> PlainChar(s[i])
  }

  /** The first position at or after i that is not a plain character (or |b|). */
  function LiteralEnd(b: string, i: nat): (j: nat)
    requires i <= |b|
    ensures i <= j <= |b|
    decreases |b| - i
  {
    if i == |b| || !PlainChar(b[i]) then i else LiteralEnd(b, i + 1)
  }

  /**
   * Reads `"<item>"` followed either by nothing or by the separator and more items.
   * Escapes and line breaks inside a literal are not read (None).
   */
  function ParseItems(b: string): Option<seq<string>>
    decreases |b|
  {
    if |b| < 2 || b[0] != '"' then None
    else
      var j := LiteralEnd(b, 1);
      if j == |b| || b[j] != '"' then None
      else
        var item, rest := b[1..j], b[j + 1..];
        if rest == [] then Some([item])
        else if |rest| > |Separator| && rest[..|Separator|] == Separator then
          match ParseItems(rest[|Separator|..])
          case Some(items) => Some([item] + items)
          case None => None
        else None
  }

  /**
   * The string a host obtains from the text: the header, the comma-separated
   * quoted items, the footer, and the ordered concatenation of the items.
   */
  function Evaluate(t: string): Option<string> {
    if |t| < |Header| + |Footer| || t[..|Header|] != Header || t[|t| - |Footer|..] != Footer then None
    else
      var body := t[|Header|..|t| - |Footer|];
      if body == [] then Some([])
      else match ParseItems(body)
        case Some(items) => Some(Chunking.Concat(items))
        case None => None
  }

  lemma {:induction false} LiteralEndOfPlain(c: string, r: string, i: nat)
    requires PlainText(c) && 1 <= i <= |c| + 1
    ensures LiteralEnd(Quote(c) + r, i) == |c| + 1
    decreases |c| + 1 - i
  {
    var b := Quote(c) + r;
    assert b[|c| + 1] == '"';
    if i <= |c| {
      assert b[i] == c[i - 1];
      LiteralEndOfPlain(c, r, i + 1);
    }
  }

  lemma QuotedItem(c: string, r: string)
    requires PlainText(c)
    ensures var b := Quote(c) + r;
      |b| >= 2 && b[0] == '"' && LiteralEnd(b, 1) == |c| + 1 && b[|c| + 1] == '"' &&
      b[1..|c| + 1] == c && b[|c| + 2..] == r
  {
    LiteralEndOfPlain(c, r, 1);
  }

  lemma ParseSingle(c: string)
    requires PlainText(c)
    ensures ParseItems(Quote(c)) == Some([c])
  {
    QuotedItem(c, []);
    assert Quote(c) == Quote(c) + [];
    assert (Quote(c) + [])[|c| + 2..] == [];
  }

  lemma ParseCons(c: string, tail: string)
    requires PlainText(c) && |tail| > 0
    ensures ParseItems(Quote(c) + (Separator + tail)) ==
      match ParseItems(tail)
      case Some(items) => Some([c] + items)
      case None => None
  {
    var r := Separator + tail;
    QuotedItem(c, r);
    assert r[..|Separator|] == Separator && r[|Separator|..] == tail;
  }

  lemma JoinCons(parts: seq<string>, sep: string)
    requires |parts| >= 2
    ensures Join(parts, sep) == parts[0] + (sep + Join(parts[1..], sep))
  {
  }

  lemma QuoteAllCons(cs: seq<string>)
    requires |cs| > 0
    ensures QuoteAll(cs)[0] == Quote(cs[0]) && QuoteAll(cs)[1..] == QuoteAll(cs[1..])
  {
  }

  /** Reading back the joined quoted chunks gives the chunks. */
  lemma {:induction false} ParseJoined(cs: seq<string>)
    requires |cs| > 0
    requires forall k :: 0 <= k < |cs| ==> PlainText(cs[k])
    ensures ParseItems(Join(QuoteAll(cs), Separator)) == Some(cs)
    decreases |cs|
  {
    QuoteAllCons(cs);
    if |cs| == 1 {
      ParseSingle(cs[0]);
      assert cs == [cs[0]];
    } else {
      var tail := Join(QuoteAll(cs[1..]), Separator);
      JoinCons(QuoteAll(cs), Separator);
      QuotedNonEmpty(cs[1..]);
      ParseCons(cs[0], tail);
      ParseJoined(cs[1..]);
      assert [cs[0]] + cs[1..] == cs;
    }
  }

  lemma QuotedNonEmpty(cs: seq<string>)
    requires |cs| > 0
    ensures |Join(QuoteAll(cs), Separator)| >= 2
  {
    var qs := QuoteAll(cs);
    assert qs[0] == Quote(cs[0]);
    if |cs| > 1 {
      assert Join(qs, Separator) == qs[0] + Separator + Join(qs[1..], Separator);
    }
  }

  /** The header and the footer frame the body that Evaluate reads. */
  lemma Framed(body: string)
    ensures var t := Header + body + Footer;
      |t| >= |Header| + |Footer| && t[..|Header|] == Header &&
      t[|t| - |Footer|..] == Footer && t[|Header|..|t| - |Footer|] == body
  {
  }

  /** Evaluating a rendered list of plain chunks gives their concatenation. */
  lemma EvaluateRender(cs: seq<string>)
    requires forall k :: 0 <= k < |cs| ==> PlainText(cs[k])
    ensures Evaluate(Render(cs)) == Some(Chunking.Concat(cs))
  {
    var body := Join(QuoteAll(cs), Separator);
    Framed(body);
    if |cs| > 0 {
      QuotedNonEmpty(cs);
      ParseJoined(cs);
    }
  }

  lemma ChunksArePlain(s: string, size: nat)
    requires size > 0 && PlainText(s)
    ensures forall k :: 0 <= k < |Chunking.Chunks(s, size)| ==> PlainText(Chunking.Chunks(s, size)[k])
  {
    Chunking.ChunkSlices(s, size);
  }

  /**
   * The rendered split of a string without quotes, backslashes or line breaks
   * (every data URL) evaluates back to that string.
   */
  lemma RenderRoundTrip(s: string, size: nat)
    requires size > 0 && PlainText(s)
    ensures Evaluate(Render(Chunking.Chunks(s, size))) == Some(s)
  {
    ChunksArePlain(s, size);
    EvaluateRender(Chunking.Chunks(s, size));
    Chunking.ChunksConcat(s, size);
  }

  /** The empty string renders as an array with no element, which evaluates to "". */
  lemma RenderEmpty()
    ensures Render(Chunking.Chunks("", Chunking.DefaultChunkSize)) == "export default base64Image = [\n  \n].join(\"\");"
    ensures Evaluate(Render(Chunking.Chunks("", Chunking.DefaultChunkSize))) == Some("")
  {
    RenderRoundTrip("", Chunking.DefaultChunkSize);
  }
}
