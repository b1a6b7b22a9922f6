/** The attention report: each token of a sentence is wrapped in a `<span>`
    whose background colour goes from white (weight 0) to pure red
    (weight 1), and the spans are joined into one HTML fragment. */
module AttnReport {
  import opened HexFormat

  // ---------------------------------------------------------------------
  // highlight(word, attn)
  // ---------------------------------------------------------------------

  /** Python's `int()` applied to a number: truncation toward zero. */
  function Trunc(x: real): (n: int)
    ensures x >= 0.0 ==> 0 <= n && n as real <= x < n as real + 1.0
    ensures x < 0.0 ==> n <= 0 && n as real - 1.0 < x <= n as real
  {
    if x >= 0.0 then x.Floor else -((-x).Floor)
  }

  /** The green (and blue) channel: `int(255*(1 - attn))`. A weight in [0,1]
      gives a value in 0..255. */
  function Channel(attn: real): (g: int)
    ensures 0.0 <= attn <= 1.0 ==> 0 <= g <= 255
  {
    Trunc(255.0 * (1.0 - attn))
  }

  /** `'#%02X%02X%02X' % (255, g, g)` with `g` the channel above: for any
      weight it starts with `#FF`. */
  function Color(attn: real): (c: string)
    ensures |c| >= 7 && c[0] == '#' && c[1] == 'F' && c[2] == 'F'
  {
    Format02XEnds();
    "#" + Format02X(255) + Format02X(Channel(attn)) + Format02X(Channel(attn))
  }

  const SpanOpen: string := "<span style=\"background-color: "
  const SpanMid: string := "\">"
  const SpanClose: string := "</span>"

  /** The span tag that colours `word` by its attention weight: for any
      weight it is at least 47 characters longer than the word, opens with
      `<` and closes with `>`. */
  function Highlight(word: string, attn: real): (h: string)
    ensures |h| >= |word| + 47 && h[0] == '<' && h[|h| - 1] == '>'
  {
    SpanOpen + Color(attn) + SpanMid + word + SpanClose
  }

  /** A larger weight never gives a larger green/blue value, for any weights. */
  lemma ChannelMonotone(a: real, b: real)
    requires a <= b
    ensures Channel(b) <= Channel(a)
  {
  }

  /** For a weight in [0,1] the colour is `#` followed by six upper-case
      hexadecimal digits: red is always FF, green equals blue, and the green
      digits read back as the channel value. */
  lemma ColorFormat(attn: real)
    requires 0.0 <= attn <= 1.0
    ensures |Color(attn)| == 7 && Color(attn)[0] == '#'
    ensures AllHexDigits(Color(attn)[1..])
    ensures Color(attn)[1..3] == "FF"
    ensures Color(attn)[3..5] == Color(attn)[5..7]
    ensures ParseHex(Color(attn)[3..5]) == Channel(attn)
  {
    var g := Channel(attn);
    Format02XEnds();
    Format02XRoundTrip(g);
    var f := Format02X(g);
    var c := Color(attn);
    assert c == "#" + ("FF" + f + f);
    assert c[1..] == "FF" + f + f;
    AllHexDigitsAppend("FF", f);
    AllHexDigitsAppend("FF" + f, f);
    assert c[3..5] == f && c[5..7] == f;
  }

  /** Weight 0 is white and weight 1 is pure red. */
  lemma ColorEnds()
    ensures Color(0.0) == "#FFFFFF"
    ensures Color(1.0) == "#FF0000"
  {
    Format02XEnds();
    assert Channel(0.0) == 255;
    assert Channel(1.0) == 0;
  }

  /** The inverse of `Highlight` for a weight in [0,1]: the word sits between
      the fixed 40-character opening (which holds the 7-character colour) and
      the closing `</span>`. */
  function SpanWord(html: string): string
    requires |html| >= 47
  {
    html[40..|html| - 7]
  }

  /** `Highlight` wraps the word unchanged: the result is the fixed opening,
      the colour, `">`, the word itself and `</span>`, in that order. */
  lemma HighlightLayout(word: string, attn: real)
    requires 0.0 <= attn <= 1.0
    ensures |Highlight(word, attn)| == |word| + 47
    ensures Highlight(word, attn)[..31] == SpanOpen
    ensures Highlight(word, attn)[31..38] == Color(attn)
    ensures Highlight(word, attn)[38..40] == SpanMid
    ensures Highlight(word, attn)[|word| + 40..] == SpanClose
    ensures SpanWord(Highlight(word, attn)) == word
  {
    ColorFormat(attn);
    var h := Highlight(word, attn);
    assert h[..31] == SpanOpen;
    assert h[31..38] == Color(attn);
    assert h[38..40] == SpanMid;
    assert h[40..|word| + 40] == word;
    assert h[|word| + 40..] == SpanClose;
  }

  // ---------------------------------------------------------------------
  // itos(word) = TEXT.vocab.itos[word].strip("<").strip(">")
  // ---------------------------------------------------------------------

  /** `s.lstrip(c)`: drops every leading `c`, so the result is no longer than
      `s` and does not start with `c`. */
  function StripLeading(s: string, c: char): (r: string)
    ensures |r| <= |s|
    ensures r == [] || r[0] != c
    decreases |s|
  {
    if |s| > 0 && s[0] == c then StripLeading(s[1..], c) else s
  }

  /** `s.rstrip(c)`: drops every trailing `c`, so the result is no longer than
      `s`, keeps its first character when not empty, and does not end with
      `c`. */
  function StripTrailing(s: string, c: char): (r: string)
    ensures |r| <= |s|
    ensures r == [] || (r[0] == s[0] && r[|r| - 1] != c)
    decreases |s|
  {
    if |s| > 0 && s[|s| - 1] == c then StripTrailing(s[..|s| - 1], c) else s
  }

  /** `s.strip(c)` for a one-character set: no longer than `s`, and neither
      starting nor ending with `c`. */
  function Strip(s: string, c: char): (r: string)
    ensures |r| <= |s|
    ensures r == [] || (r[0] != c && r[|r| - 1] != c)
  {
    StripTrailing(StripLeading(s, c), c)
  }

  /** `lstrip` keeps a suffix of its input, removes only copies of `c`, and
      leaves no `c` at the front. */
  lemma {:induction false} StripLeadingSpec(s: string, c: char)
    ensures |StripLeading(s, c)| <= |s|
    ensures StripLeading(s, c) == s[|s| - |StripLeading(s, c)|..]
    ensures forall k :: 0 <= k < |s| - |StripLeading(s, c)| ==> s[k] == c
    ensures StripLeading(s, c) == [] || StripLeading(s, c)[0] != c
    decreases |s|
  {
    if |s| > 0 && s[0] == c {
      StripLeadingSpec(s[1..], c);
    }
  }

  /** `rstrip` keeps a prefix of its input, removes only copies of `c`, and
      leaves no `c` at the end. */
  lemma {:induction false} StripTrailingSpec(s: string, c: char)
    ensures |StripTrailing(s, c)| <= |s|
    ensures StripTrailing(s, c) == s[..|StripTrailing(s, c)|]
    ensures forall k :: |StripTrailing(s, c)| <= k < |s| ==> s[k] == c
    ensures StripTrailing(s, c) == [] || StripTrailing(s, c)[|StripTrailing(s, c)| - 1] != c
    decreases |s|
  {
    if |s| > 0 && s[|s| - 1] == c {
      StripTrailingSpec(s[..|s| - 1], c);
    }
  }

  /** `strip` keeps a contiguous piece `s[i..j]` of its input, removes only
      copies of `c` on either side of it, and leaves no `c` at either end. */
  lemma StripSpec(s: string, c: char)
    ensures exists i, j ::
              && 0 <= i <= j <= |s| && Strip(s, c) == s[i..j]
              && (forall k :: 0 <= k < i ==> s[k] == c)
              && (forall k :: j <= k < |s| ==> s[k] == c)
    ensures Strip(s, c) == [] || (Strip(s, c)[0] != c && Strip(s, c)[|Strip(s, c)| - 1] != c)
  {
    var l := StripLeading(s, c);
    StripLeadingSpec(s, c);
    StripTrailingSpec(l, c);
    var r := Strip(s, c);
    var i := |s| - |l|;
    var j := i + |r|;
    assert r == s[i..j];
    assert forall k :: j <= k < |s| ==> s[k] == l[k - i];
  }

  /** Python list indexing, where a negative index counts from the end. */
  predicate InVocab(vocab: seq<string>, id: int) {
    -|vocab| <= id < |vocab|
  }

  /** `TEXT.vocab.itos[id]`: always an entry of the vocabulary. */
  function VocabAt(vocab: seq<string>, id: int): (w: string)
    requires InVocab(vocab, id)
    ensures w in vocab
  {
    if id >= 0 then vocab[id] else vocab[|vocab| + id]
  }

  /** The nested `itos` of `mk_html`: the vocabulary entry, stripped of `<`
      and then of `>`. The word is no longer than the entry and never starts
      or ends with `>`. */
  function Itos(vocab: seq<string>, id: int): (w: string)
    requires InVocab(vocab, id)
    ensures |w| <= |VocabAt(vocab, id)|
    ensures w == [] || (w[0] != '>' && w[|w| - 1] != '>')
  {
    Strip(Strip(VocabAt(vocab, id), '<'), '>')
  }

  /** The special tokens lose their brackets: `<unk>` is shown as `unk`. */
  lemma ItosUnk(vocab: seq<string>, id: int)
    requires InVocab(vocab, id) && VocabAt(vocab, id) == "<unk>"
    ensures Itos(vocab, id) == "unk"
  {
    var w := "<unk>";
    assert StripLeading(w, '<') == StripLeading(w[1..], '<');
    assert StripLeading(w[1..], '<') == "unk>";
    assert StripTrailing("unk>", '<') == "unk>";
    assert StripLeading("unk>", '>') == "unk>";
    assert StripTrailing("unk>", '>') == StripTrailing("unk", '>');
    assert StripTrailing("unk", '>') == "unk";
  }

  // ---------------------------------------------------------------------
  // mk_html(sentence, attns)
  // ---------------------------------------------------------------------

  /** Python's `zip`: pairs up to the length of the shorter input. */
  function Zip(sentence: seq<int>, attns: seq<real>): (ps: seq<(int, real)>)
    ensures |ps| == if |sentence| <= |attns| then |sentence| else |attns|
  {
    if sentence == [] || attns == [] then []
    else [(sentence[0], attns[0])] + Zip(sentence[1..], attns[1..])
  }

  /** The i-th pair of `zip` holds the i-th element of each input. */
  lemma {:induction false} ZipAt(sentence: seq<int>, attns: seq<real>)
    ensures forall i :: 0 <= i < |Zip(sentence, attns)| ==> Zip(sentence, attns)[i] == (sentence[i], attns[i])
    decreases |sentence|
  {
    if sentence != [] && attns != [] {
      ZipAt(sentence[1..], attns[1..]);
    }
  }

  /** Every token id that `zip` reaches can be looked up. */
  predicate ZipInVocab(vocab: seq<string>, sentence: seq<int>, attns: seq<real>) {
    forall i :: 0 <= i < |sentence| && i < |attns| ==> InVocab(vocab, sentence[i])
  }

  predicate PairsInVocab(vocab: seq<string>, ps: seq<(int, real)>) {
    forall i :: 0 <= i < |ps| ==> InVocab(vocab, ps[i].0)
  }

  /** What one loop iteration appends: `' ' + highlight(itos(word), attn)`, a
      space followed by a span tag. */
  function Piece(vocab: seq<string>, p: (int, real)): (r: string)
    requires InVocab(vocab, p.0)
    ensures |r| >= |Itos(vocab, p.0)| + 48 && r[0] == ' ' && r[1] == '<' && r[|r| - 1] == '>'
  {
    " " + Highlight(Itos(vocab, p.0), p.1)
  }

  /** The pieces of all pairs, appended in order. */
  function Render(vocab: seq<string>, ps: seq<(int, real)>): string
    requires PairsInVocab(vocab, ps)
  {
    if ps == [] then "" else Render(vocab, ps[..|ps| - 1]) + Piece(vocab, ps[|ps| - 1])
  }

  /** Zipping aligned inputs extended by one element each extends the pairs
      by that one pair. */
  lemma {:induction false} ZipSnoc(sentence: seq<int>, attns: seq<real>, word: int, attn: real)
    requires |sentence| == |attns|
    ensures Zip(sentence + [word], attns + [attn]) == Zip(sentence, attns) + [(word, attn)]
    decreases |sentence|
  {
    if sentence != [] {
      assert (sentence + [word])[1..] == sentence[1..] + [word];
      assert (attns + [attn])[1..] == attns[1..] + [attn];
      ZipSnoc(sentence[1..], attns[1..], word, attn);
    }
  }

  /** Every pair of `zip` holds a token id that can be looked up. */
  lemma ZipPairsInVocab(vocab: seq<string>, sentence: seq<int>, attns: seq<real>)
    requires ZipInVocab(vocab, sentence, attns)
    ensures PairsInVocab(vocab, Zip(sentence, attns))
  {
    ZipAt(sentence, attns);
  }

  /** Rendering one more pair appends that pair's piece. */
  lemma RenderStep(vocab: seq<string>, ps: seq<(int, real)>, i: nat)
    requires PairsInVocab(vocab, ps) && i < |ps|
    ensures Render(vocab, ps[..i + 1]) == Render(vocab, ps[..i]) + Piece(vocab, ps[i])
  {
    assert ps[..i + 1][..i] == ps[..i];
  }

  /** The pieces for all pairs of `zip(sentence, attns)`, appended in order. */
  function RenderZip(vocab: seq<string>, sentence: seq<int>, attns: seq<real>): string
    requires ZipInVocab(vocab, sentence, attns)
  {
    ZipPairsInVocab(vocab, sentence, attns);
    Render(vocab, Zip(sentence, attns))
  }

  /** The fragment `mk_html` returns: the rendered pairs, then `<br><br>`,
      so it always ends with `<br><br>`. */
  function ReportHtml(vocab: seq<string>, sentence: seq<int>, attns: seq<real>): (r: string)
    requires ZipInVocab(vocab, sentence, attns)
    ensures |r| >= 8 && r[|r| - 8..] == "<br><br>"
  {
    RenderZip(vocab, sentence, attns) + "<br><br>"
  }

  /** `mk_html`: builds the fragment with `html +=` over `zip(sentence, attns)`. */
  method MkHtml(vocab: seq<string>, sentence: seq<int>, attns: seq<real>) returns (html: string)
    requires ZipInVocab(vocab, sentence, attns)
    ensures html == ReportHtml(vocab, sentence, attns)
  {
    var pairs := Zip(sentence, attns);
    ZipPairsInVocab(vocab, sentence, attns);
    html := "";
    for i := 0 to |pairs|
      invariant html == Render(vocab, pairs[..i])
    {
      var (word, attn) := pairs[i];
      RenderStep(vocab, pairs, i);
      html := html + Piece(vocab, (word, attn));
    }
    assert pairs[..|pairs|] == pairs;
    assert html == RenderZip(vocab, sentence, attns);
    html := html + "<br><br>";
  }

  /** The separate spans of a rendering, one per pair, in pair order. */
  function Pieces(vocab: seq<string>, ps: seq<(int, real)>): seq<string>
    requires PairsInVocab(vocab, ps)
  {
    seq(|ps|, i requires 0 <= i < |ps| => Piece(vocab, ps[i]))
  }

  /** The strings of `xs` joined in order. */
  function Concat(xs: seq<string>): string {
    if xs == [] then "" else Concat(xs[..|xs| - 1]) + xs[|xs| - 1]
  }

  /** The pieces of all pairs but the last are the first pieces of all pairs. */
  lemma PiecesSnoc(vocab: seq<string>, ps: seq<(int, real)>)
    requires PairsInVocab(vocab, ps) && ps != []
    ensures PairsInVocab(vocab, ps[..|ps| - 1])
    ensures Pieces(vocab, ps)[..|ps| - 1] == Pieces(vocab, ps[..|ps| - 1])
  {
    var init := ps[..|ps| - 1];
    var xs, ys := Pieces(vocab, ps)[..|ps| - 1], Pieces(vocab, init);
    forall i | 0 <= i < |init| ensures xs[i] == ys[i] {
      assert init[i] == ps[i];
    }
  }

  /** Rendering is exactly the concatenation of one piece per pair, in order. */
  lemma {:induction false} RenderIsConcat(vocab: seq<string>, ps: seq<(int, real)>)
    requires PairsInVocab(vocab, ps)
    ensures Render(vocab, ps) == Concat(Pieces(vocab, ps))
    decreases |ps|
  {
    if ps != [] {
      var init := ps[..|ps| - 1];
      RenderIsConcat(vocab, init);
      PiecesSnoc(vocab, ps);
    }
  }

  /** Reference definition of the spans: for each i below
      min(|sentence|, |attns|), the i-th word coloured by the i-th weight. */
  function Spans(vocab: seq<string>, sentence: seq<int>, attns: seq<real>): seq<string>
    requires ZipInVocab(vocab, sentence, attns)
  {
    var n := if |sentence| <= |attns| then |sentence| else |attns|;
    seq(n, i requires 0 <= i < n =>
      " " + Highlight(Itos(vocab, sentence[i]), attns[i]))
  }

  /** The report is the spans, one per pair of `zip(sentence, attns)` and in
      input order, followed by `<br><br>`. */
  lemma ReportShape(vocab: seq<string>, sentence: seq<int>, attns: seq<real>)
    requires ZipInVocab(vocab, sentence, attns)
    ensures ReportHtml(vocab, sentence, attns) == Concat(Spans(vocab, sentence, attns)) + "<br><br>"
    ensures |Spans(vocab, sentence, attns)| == if |sentence| <= |attns| then |sentence| else |attns|
  {
    var ps := Zip(sentence, attns);
    ZipAt(sentence, attns);
    RenderIsConcat(vocab, ps);
    var xs, ys := Pieces(vocab, ps), Spans(vocab, sentence, attns);
    assert |xs| == |ys|;
    forall i | 0 <= i < |xs| ensures xs[i] == ys[i] {
      assert ps[i] == (sentence[i], attns[i]);
    }
    assert xs == ys;
  }

  /** An empty sentence (or no weights) renders as just `<br><br>`. */
  lemma ReportEmpty(vocab: seq<string>, sentence: seq<int>, attns: seq<real>)
    requires sentence == [] || attns == []
    ensures ReportHtml(vocab, sentence, attns) == "<br><br>"
  {
  }

  /** Order is preserved: appending one token and its weight appends its span
      after everything already rendered. */
  lemma ReportAppend(vocab: seq<string>, sentence: seq<int>, attns: seq<real>, word: int, attn: real)
    requires |sentence| == |attns|
    requires ZipInVocab(vocab, sentence, attns) && InVocab(vocab, word)
    ensures ZipInVocab(vocab, sentence + [word], attns + [attn])
    ensures ReportHtml(vocab, sentence + [word], attns + [attn])
         == RenderZip(vocab, sentence, attns) + Piece(vocab, (word, attn)) + "<br><br>"
  {
    var ps := Zip(sentence + [word], attns + [attn]);
    ZipSnoc(sentence, attns, word, attn);
    ZipPairsInVocab(vocab, sentence + [word], attns + [attn]);
    assert ps[..|ps| - 1] == Zip(sentence, attns);
  }
}
