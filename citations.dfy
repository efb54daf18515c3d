/** The citation linkifier of `static/script.js`: `formatCitations` rewrites
    every `[Page N]` of the answer's HTML into a clickable span, and the
    span's click handler `jumpToPage` points the PDF frame at page N.

    The element's `innerHTML` is modelled as a plain string: the browser's
    HTML parsing and re-serialisation on assignment are not part of this
    model. */
module Citations {
  import opened Text

  datatype Option<T> = None | Some(value: T)

  // ---------------------------------------------------------------------------
  // The pattern /\[Page (\d+)\]/
  // ---------------------------------------------------------------------------

  const TagOpen: string := "[Page "

  /** `s` starts with a citation tag whose page part is exactly `k` digits. */
  predicate IsTagAt(s: string, k: int) {
    1 <= k && 7 + k <= |s| && s[..6] == TagOpen && AllDigits(s[6..6 + k]) && s[6 + k] == ']'
  }

  /** The length of the run of ASCII digits (JavaScript `\d`) that starts `s`. */
  function DigitRun(s: string): (k: nat)
    ensures k <= |s|
    ensures forall i :: 0 <= i < k ==> IsDigit(s[i])
    ensures k < |s| ==> !IsDigit(s[k])
  {
    if s != [] && IsDigit(s[0]) then 1 + DigitRun(s[1..]) else 0
  }

  /** Whether the pattern matches at the start of `s`, and with how many
      digits: the greedy `\d+` takes the whole digit run, which must then be
      followed by `]`. */
  function MatchAt(s: string): (r: Option<nat>)
    ensures r.Some? ==> 1 <= r.value && 7 + r.value <= |s|
  {
    if |s| >= 6 && s[..6] == TagOpen then
      var k := DigitRun(s[6..]);
      if k >= 1 && 6 + k < |s| && s[6 + k] == ']' then
        Some(k)
      else None
    else None
  }

  /** The pattern matches at the start exactly when a tag starts there, and
      then with the tag's digit count, which is unique. */
  lemma MatchAtIsTag(s: string)
    ensures MatchAt(s).Some? ==> IsTagAt(s, MatchAt(s).value as int)
    ensures forall k :: IsTagAt(s, k) ==> MatchAt(s) == Some(k)
  {
    if MatchAt(s).Some? {
      var k := MatchAt(s).value;
      assert s[6..6 + k] == s[6..][..k];
    }
    forall k | IsTagAt(s, k) ensures MatchAt(s) == Some(k) {
      TagDigitRun(s, k);
    }
  }

  /** The digit run of a tag ends at its `]`. */
  lemma TagDigitRun(s: string, k: int)
    requires IsTagAt(s, k)
    ensures DigitRun(s[6..]) == k
  {
    var t := s[6..];
    assert forall i :: 0 <= i < k ==> t[i] == s[6..6 + k][i];
    assert t[k] == ']';
  }

  /** A citation tag with these page digits is matched, whatever follows it. */
  lemma TagIsMatched(digits: string, rest: string)
    requires |digits| >= 1 && AllDigits(digits)
    ensures MatchAt(TagOpen + digits + "]" + rest) == Some(|digits|)
  {
    var s := TagOpen + digits + "]" + rest;
    assert s[..6] == TagOpen && s[6..6 + |digits|] == digits && s[6 + |digits|] == ']';
    assert IsTagAt(s, |digits|);
    MatchAtIsTag(s);
  }

  /** The pattern matches somewhere in `s`. */
  predicate HasCitation(s: string) {
    exists i :: 0 <= i < |s| && MatchAt(s[i..]).Some?
  }

  // ---------------------------------------------------------------------------
  // formatCitations as a left-to-right scan
  // ---------------------------------------------------------------------------

  /** A piece of the scanned text: a character the pattern did not match at,
      or a matched tag with its page digits. */
  datatype Piece = Plain(c: char) | Citation(digits: string)

  /** The global replace scans left to right: where the pattern matches, the
      whole tag is one piece and scanning resumes after it; elsewhere one
      character is kept as it is. Matches therefore never overlap. */
  function Tokenize(s: string): seq<Piece>
    decreases |s|
  {
    if s == [] then []
    else
      match MatchAt(s)
      case Some(k) => [Citation(s[6..6 + k])] + Tokenize(s[7 + k..])
      case None => [Plain(s[0])] + Tokenize(s[1..])
  }

  /** Every citation piece carries one or more ASCII digits. */
  predicate NumericCitations(pieces: seq<Piece>) {
    forall j :: 0 <= j < |pieces| && pieces[j].Citation? ==>
      |pieces[j].digits| >= 1 && AllDigits(pieces[j].digits)
  }

  /** The text a piece was read from. */
  function PieceSource(p: Piece): string {
    match p
    case Plain(c) => [c]
    case Citation(digits) => TagOpen + digits + "]"
  }

  function Source(pieces: seq<Piece>): string {
    if pieces == [] then "" else PieceSource(pieces[0]) + Source(pieces[1..])
  }

  /** The replacement built by the callback: a span whose click handler is
      `jumpToPage(N)`, around the matched text. */
  function Span(pageNum: string, matched: string): string {
    SpanOpen(pageNum) + matched + "</span>"
  }

  function SpanOpen(pageNum: string): string {
    "<span class=\"citation\" onclick=\"jumpToPage(" + pageNum + ")\">"
  }

  function PieceHtml(p: Piece): string {
    match p
    case Plain(c) => [c]
    case Citation(digits) => Span(digits, TagOpen + digits + "]")
  }

  function Render(pieces: seq<Piece>): string {
    if pieces == [] then "" else PieceHtml(pieces[0]) + Render(pieces[1..])
  }

  /** `formatCitations`: the new `innerHTML` for the old one. Spans are only
      ever added, and the HTML is left unchanged exactly when it holds no
      `[Page N]`. */
  function FormatCitations(html: string): (out: string)
    ensures |out| >= |html|
    ensures out == html <==> !HasCitation(html)
  {
    SourceOfTokenize(html);
    TokenizeFindsCitation(html);
    RenderLength(Tokenize(html));
    Render(Tokenize(html))
  }

  predicate AnyCitation(pieces: seq<Piece>) {
    exists j :: 0 <= j < |pieces| && pieces[j].Citation?
  }

  /** One step of the scan where the pattern matches. */
  lemma TokenizeTag(s: string, k: nat)
    requires MatchAt(s) == Some(k)
    ensures Tokenize(s) == [Citation(s[6..6 + k])] + Tokenize(s[7 + k..])
  {
  }

  /** A matched tag is read back from its piece. */
  lemma TagSource(s: string, k: nat)
    requires MatchAt(s) == Some(k)
    ensures s == PieceSource(Citation(s[6..6 + k])) + s[7 + k..]
  {
    assert s[..6] == TagOpen;
    assert s == s[..6] + s[6..6 + k] + [s[6 + k]] + s[7 + k..];
  }

  /** A tag with a page number is scanned as one citation piece. */
  lemma TokenizeOfTag(digits: string, rest: string)
    requires |digits| >= 1 && AllDigits(digits)
    ensures Tokenize(TagOpen + digits + "]" + rest) == [Citation(digits)] + Tokenize(rest)
  {
    var s := TagOpen + digits + "]" + rest;
    var k := |digits|;
    TagIsMatched(digits, rest);
    TokenizeTag(s, k);
    TagSlices(digits, rest);
  }

  lemma TagSlices(digits: string, rest: string)
    ensures (TagOpen + digits + "]" + rest)[6..6 + |digits|] == digits
    ensures (TagOpen + digits + "]" + rest)[7 + |digits|..] == rest
  {
  }

  /** One step of the scan where the pattern does not match. */
  lemma TokenizePlain(s: string)
    requires s != [] && MatchAt(s).None?
    ensures Tokenize(s) == [Plain(s[0])] + Tokenize(s[1..])
    ensures s == PieceSource(Plain(s[0])) + s[1..]
  {
    assert s == [s[0]] + s[1..];
  }

  lemma SourceCons(p: Piece, rest: seq<Piece>)
    ensures Source([p] + rest) == PieceSource(p) + Source(rest)
  {
    assert ([p] + rest)[1..] == rest;
  }

  lemma RenderCons(p: Piece, rest: seq<Piece>)
    ensures Render([p] + rest) == PieceHtml(p) + Render(rest)
  {
    assert ([p] + rest)[1..] == rest;
  }

  lemma AnyCitationCons(p: Piece, rest: seq<Piece>)
    ensures AnyCitation([p] + rest) <==> p.Citation? || AnyCitation(rest)
  {
    var ps := [p] + rest;
    if p.Citation? {
      assert ps[0].Citation?;
    }
    if AnyCitation(rest) {
      var j :| 0 <= j < |rest| && rest[j].Citation?;
      assert ps[j + 1] == rest[j];
    }
    if AnyCitation(ps) && !p.Citation? {
      var j :| 0 <= j < |ps| && ps[j].Citation?;
      assert rest[j - 1] == ps[j];
    }
  }

  /** A match in `s` is a match at its start or a match further on. */
  lemma HasCitationCons(s: string)
    requires s != []
    ensures HasCitation(s) <==> MatchAt(s).Some? || HasCitation(s[1..])
  {
    assert s[0..] == s;
    if HasCitation(s[1..]) {
      var i :| 0 <= i < |s[1..]| && MatchAt(s[1..][i..]).Some?;
      assert s[1..][i..] == s[i + 1..];
    }
    if HasCitation(s) && MatchAt(s).None? {
      var i :| 0 <= i < |s| && MatchAt(s[i..]).Some?;
      assert s[1..][i - 1..] == s[i..];
    }
  }

  /** A match in `b` is a match in any text that ends with `b`. */
  lemma HasCitationSuffix(a: string, b: string)
    requires HasCitation(b)
    ensures HasCitation(a + b)
  {
    var i :| 0 <= i < |b| && MatchAt(b[i..]).Some?;
    assert (a + b)[|a| + i..] == b[i..];
  }

  // ---------------------------------------------------------------------------
  // Properties
  // ---------------------------------------------------------------------------

  /** Every linked piece carries the digits `\d+` matched: one or more
      ASCII digits. */
  lemma {:induction false} TokenizeDigits(s: string)
    ensures NumericCitations(Tokenize(s))
    decreases |s|
  {
    if s != [] {
      match MatchAt(s)
      case Some(k) =>
        TokenizeTag(s, k);
        MatchAtIsTag(s);
        TokenizeDigits(s[7 + k..]);
        NumericCitationsCons(Citation(s[6..6 + k]), Tokenize(s[7 + k..]));
      case None =>
        TokenizePlain(s);
        TokenizeDigits(s[1..]);
        NumericCitationsCons(Plain(s[0]), Tokenize(s[1..]));
    }
  }

  lemma NumericCitationsCons(p: Piece, rest: seq<Piece>)
    requires p.Citation? ==> |p.digits| >= 1 && AllDigits(p.digits)
    requires NumericCitations(rest)
    ensures NumericCitations([p] + rest)
  {
    var ps := [p] + rest;
    forall j | 0 < j < |ps| ensures ps[j] == rest[j - 1] {
    }
  }

  /** The scan loses and invents nothing: the pieces spell the input, so the
      text between matches and each matched tag are kept verbatim. */
  lemma {:induction false} SourceOfTokenize(s: string)
    ensures Source(Tokenize(s)) == s
    decreases |s|
  {
    if s != [] {
      match MatchAt(s)
      case Some(k) =>
        TokenizeTag(s, k);
        TagSource(s, k);
        SourceOfTokenize(s[7 + k..]);
        SourceCons(Citation(s[6..6 + k]), Tokenize(s[7 + k..]));
      case None =>
        TokenizePlain(s);
        SourceOfTokenize(s[1..]);
        SourceCons(Plain(s[0]), Tokenize(s[1..]));
    }
  }

  /** The scan finds a tag exactly when the pattern matches somewhere. */
  lemma {:induction false} TokenizeFindsCitation(s: string)
    ensures AnyCitation(Tokenize(s)) <==> HasCitation(s)
    decreases |s|
  {
    if s != [] {
      HasCitationCons(s);
      match MatchAt(s)
      case Some(k) =>
        TokenizeTag(s, k);
        AnyCitationCons(Citation(s[6..6 + k]), Tokenize(s[7 + k..]));
      case None =>
        TokenizePlain(s);
        TokenizeFindsCitation(s[1..]);
        AnyCitationCons(Plain(s[0]), Tokenize(s[1..]));
    }
  }

  /** No match starts strictly inside a matched tag: after its opening `[`,
      a tag holds only letters, a space, digits and `]`. */
  lemma NoMatchInsideMatch(s: string, i: nat)
    requires MatchAt(s).Some? && 0 < i < 7 + MatchAt(s).value
    ensures MatchAt(s[i..]).None?
  {
    var k := MatchAt(s).value;
    assert s[i..][0] == s[i];
    if i < 6 {
      assert s[i] == s[..6][i] == TagOpen[i];
    } else if i < 6 + k {
      assert s[i] == s[6..6 + k][i - 6];
    }
  }

  /** The scan's prefix before piece `j + 1` of `[p] + rest` is `p`'s text
      followed by the prefix of `rest` before piece `j`. */
  lemma CitationSourceLength(digits: string)
    ensures |PieceSource(Citation(digits))| == 7 + |digits|
  {
  }

  lemma SourcePrefixCons(pieces: seq<Piece>, p: Piece, rest: seq<Piece>, j: nat)
    requires pieces == [p] + rest && j < |rest|
    ensures |Source(pieces[..j + 1])| == |PieceSource(p)| + |Source(rest[..j])|
    ensures pieces[j + 1] == rest[j]
  {
    assert pieces[..j + 1] == [p] + rest[..j];
    SourceCons(p, rest[..j]);
  }

  /** Every `[Page N]` of the input is linked: wherever the pattern matches,
      the scan has a citation piece `j`, carrying that match's digits, whose
      text starts at that very offset. */
  lemma TokenizeLinksEveryMatch(s: string, i: nat) returns (j: nat)
    requires i < |s| && MatchAt(s[i..]).Some?
    ensures j < |Tokenize(s)| && |Source(Tokenize(s)[..j])| == i
    ensures Tokenize(s)[j] == Citation(s[i..][6..6 + MatchAt(s[i..]).value])
  {
    j := ScanReachesMatch(s, i);
    TokenizeResumesAtPiece(s, j);
    FirstPiece(s[i..]);
  }

  /** The scan does not step over a match: some citation piece starts at
      every offset where the pattern matches. */
  lemma {:induction false} ScanReachesMatch(s: string, i: nat) returns (j: nat)
    requires i < |s| && MatchAt(s[i..]).Some?
    ensures j < |Tokenize(s)| && |Source(Tokenize(s)[..j])| == i
    ensures Tokenize(s)[j].Citation?
    decreases |s|, 3
  {
    if MatchAt(s).Some? {
      j := ReachPastTag(s, i);
    } else {
      j := ReachPastPlain(s, i);
    }
  }

  lemma {:induction false} ReachPastTag(s: string, i: nat) returns (j: nat)
    requires MatchAt(s).Some? && i < |s| && MatchAt(s[i..]).Some?
    ensures j < |Tokenize(s)| && |Source(Tokenize(s)[..j])| == i
    ensures Tokenize(s)[j].Citation?
    decreases |s|, 2
  {
    var k := MatchAt(s).value;
    if i == 0 {
      FirstPiece(s);
      assert Tokenize(s)[..0] == [];
      j := 0;
    } else if i < 7 + k {
      NoMatchInsideMatch(s, i);
      assert false;
    } else {
      j := ReachAfterTag(s, i);
    }
  }

  lemma {:induction false} ReachAfterTag(s: string, i: nat) returns (j: nat)
    requires MatchAt(s).Some? && 7 + MatchAt(s).value <= i < |s| && MatchAt(s[i..]).Some?
    ensures j < |Tokenize(s)| && |Source(Tokenize(s)[..j])| == i
    ensures Tokenize(s)[j].Citation?
    decreases |s|, 1
  {
    var k := MatchAt(s).value;
    var a := 7 + k;
    var j' := LinksAfter(s, a, i);
    j := PastTag(s, k, a, i, j');
  }

  /** The piece found in the scan after a tag, renumbered in the whole scan. */
  lemma PastTag(s: string, k: nat, a: nat, i: nat, j': nat) returns (j: nat)
    requires MatchAt(s) == Some(k) && a == 7 + k && a <= i
    requires j' < |Tokenize(s[a..])| && |Source(Tokenize(s[a..])[..j'])| == i - a
    requires Tokenize(s[a..])[j'].Citation?
    ensures j < |Tokenize(s)| && |Source(Tokenize(s)[..j])| == i
    ensures Tokenize(s)[j].Citation?
  {
    TagThenPiece(s, k, j');
    j := j' + 1;
  }

  /** Piece `j` after a tag of `k` digits is piece `j + 1` of the whole
      scan, and the tag's text comes before it. */
  lemma TagThenPiece(s: string, k: nat, j: nat)
    requires MatchAt(s) == Some(k) && j < |Tokenize(s[7 + k..])|
    ensures j + 1 < |Tokenize(s)| && Tokenize(s)[j + 1] == Tokenize(s[7 + k..])[j]
    ensures |Source(Tokenize(s)[..j + 1])| == 7 + k + |Source(Tokenize(s[7 + k..])[..j])|
  {
    TokenizeTag(s, k);
    CitationSourceLength(s[6..6 + k]);
    SourcePrefixCons(Tokenize(s), Citation(s[6..6 + k]), Tokenize(s[7 + k..]), j);
  }

  lemma {:induction false} ReachPastPlain(s: string, i: nat) returns (j: nat)
    requires MatchAt(s).None? && i < |s| && MatchAt(s[i..]).Some?
    ensures j < |Tokenize(s)| && |Source(Tokenize(s)[..j])| == i
    ensures Tokenize(s)[j].Citation?
    decreases |s|, 2
  {
    TokenizePlain(s);
    assert i != 0 by {
      assert s[0..] == s;
    }
    var j' := LinksAfter(s, 1, i);
    SourcePrefixCons(Tokenize(s), Plain(s[0]), Tokenize(s[1..]), j');
    j := j' + 1;
  }

  /** A match at offset `i` of `s` is linked by the scan of `s[a..]`. */
  lemma {:induction false} LinksAfter(s: string, a: nat, i: nat) returns (j: nat)
    requires 0 < a <= i < |s| && MatchAt(s[i..]).Some?
    ensures j < |Tokenize(s[a..])| && |Source(Tokenize(s[a..])[..j])| == i - a
    ensures Tokenize(s[a..])[j].Citation?
    decreases |s|, 0
  {
    var m := MatchAt(s[i..]).value;
    var rest := s[a..];
    ShiftedSuffix(s, a, i - a);
    assert MatchAt(rest[i - a..]) == Some(m);
    j := ScanReachesMatch(rest, i - a);
  }

  /** The first piece of a scan: the matched tag where the pattern matches,
      the first character otherwise. */
  lemma FirstPiece(t: string)
    requires t != []
    ensures MatchAt(t).Some? ==> Tokenize(t)[0] == Citation(t[6..6 + MatchAt(t).value])
    ensures MatchAt(t).None? ==> Tokenize(t)[0] == Plain(t[0])
  {
  }

  /** The scan restarted at any piece boundary reads the same pieces: what
      follows piece `j`'s offset is scanned exactly as the remaining pieces. */
  lemma {:induction false} TokenizeResumesAtPiece(s: string, j: nat)
    requires j < |Tokenize(s)|
    ensures |Source(Tokenize(s)[..j])| < |s|
    ensures Tokenize(s[|Source(Tokenize(s)[..j])|..]) == Tokenize(s)[j..]
    decreases |s|, 2
  {
    if j == 0 {
      ResumeAtStart(s);
    } else {
      ResumeAtLaterPiece(s, j);
    }
  }

  lemma ResumeAtStart(s: string)
    requires Tokenize(s) != []
    ensures |Source(Tokenize(s)[..0])| < |s|
    ensures Tokenize(s[|Source(Tokenize(s)[..0])|..]) == Tokenize(s)[0..]
  {
    var pieces := Tokenize(s);
    assert s[0..] == s && pieces[0..] == pieces;
    assert pieces[..0] == [];
  }

  lemma {:induction false} ResumeAtLaterPiece(s: string, j: nat)
    requires 0 < j < |Tokenize(s)|
    ensures |Source(Tokenize(s)[..j])| < |s|
    ensures Tokenize(s[|Source(Tokenize(s)[..j])|..]) == Tokenize(s)[j..]
    decreases |s|, 1
  {
    var a := FirstPieceSpan(s);
    var i := j - 1;
    var b := ResumeAfter(s, a, i);
    ResumeBehindFirst(s, a, i, b, j);
  }

  /** Resuming the scan after the first piece at its piece `i` is resuming
      the whole scan at its piece `i + 1`. */
  lemma ResumeBehindFirst(s: string, a: nat, i: nat, b: nat, j: nat)
    requires s != [] && 0 < a <= |s| && j == i + 1
    requires |PieceSource(Tokenize(s)[0])| == a && Tokenize(s) == [Tokenize(s)[0]] + Tokenize(s[a..])
    requires i < |Tokenize(s[a..])| && b == |Source(Tokenize(s[a..])[..i])| && a + b < |s|
    requires Tokenize(s[a + b..]) == Tokenize(s[a..])[i..]
    ensures |Source(Tokenize(s)[..j])| == a + b
    ensures Tokenize(s[a + b..]) == Tokenize(s)[j..]
  {
    var pieces := Tokenize(s);
    var tail := Tokenize(s[a..]);
    SourcePrefixCons(pieces, pieces[0], tail, i);
    DropCons(pieces, pieces[0], tail, i);
  }

  /** The first piece of a nonempty text spans its first `a` characters, and
      the scan goes on after them. */
  lemma FirstPieceSpan(s: string) returns (a: nat)
    requires s != []
    ensures 0 < a <= |s| && |PieceSource(Tokenize(s)[0])| == a
    ensures Tokenize(s) == [Tokenize(s)[0]] + Tokenize(s[a..])
  {
    match MatchAt(s) {
      case Some(k) =>
        TokenizeTag(s, k);
        CitationSourceLength(s[6..6 + k]);
        a := 7 + k;
      case None =>
        TokenizePlain(s);
        a := 1;
    }
  }

  lemma DropCons<T>(xs: seq<T>, x: T, rest: seq<T>, i: nat)
    requires xs == [x] + rest && i < |rest|
    ensures xs[i + 1..] == rest[i..]
  {
  }

  /** Resuming the scan of `s[a..]` at offset `b` is resuming the scan of
      `s` at offset `a + b`. */
  lemma {:induction false} ResumeAfter(s: string, a: nat, j: nat) returns (b: nat)
    requires 0 < a <= |s| && j < |Tokenize(s[a..])|
    ensures b == |Source(Tokenize(s[a..])[..j])| && a + b < |s|
    ensures Tokenize(s[a + b..]) == Tokenize(s[a..])[j..]
    decreases |s|, 0
  {
    TokenizeResumesAtPiece(s[a..], j);
    b := |Source(Tokenize(s[a..])[..j])|;
    ShiftedSuffix(s, a, b);
  }

  /** Each piece sits where the scan read it: a plain piece at an offset
      where the pattern does not match, holding the character there; a
      citation at an offset where the pattern matches, holding the matched
      digits. */
  lemma TokenizePieceAt(s: string, j: nat)
    requires j < |Tokenize(s)|
    ensures var i := |Source(Tokenize(s)[..j])|;
            i < |s|
            && (Tokenize(s)[j].Plain? ==> MatchAt(s[i..]).None? && Tokenize(s)[j].c == s[i])
            && (Tokenize(s)[j].Citation? ==>
                  MatchAt(s[i..]).Some? && Tokenize(s)[j].digits == s[i..][6..6 + MatchAt(s[i..]).value])
  {
    var i := |Source(Tokenize(s)[..j])|;
    TokenizeResumesAtPiece(s, j);
    FirstPiece(s[i..]);
    assert Tokenize(s)[j] == Tokenize(s[i..])[0];
  }

  lemma ShiftedSuffix(s: string, a: nat, b: int)
    requires 0 <= b && a + b <= |s|
    ensures s[a..][b..] == s[a + b..]
  {
  }

  /** Wrapping never shortens a piece, and a wrapped tag is longer than the tag. */
  lemma {:induction false} RenderLength(pieces: seq<Piece>)
    ensures |Render(pieces)| >= |Source(pieces)|
    ensures AnyCitation(pieces) ==> |Render(pieces)| > |Source(pieces)|
    ensures !AnyCitation(pieces) ==> Render(pieces) == Source(pieces)
  {
    if pieces != [] {
      var rest := pieces[1..];
      RenderLength(rest);
      if AnyCitation(rest) {
        var j :| 0 <= j < |rest| && rest[j].Citation?;
        assert pieces[j + 1].Citation?;
      }
      if AnyCitation(pieces) && pieces[0].Plain? {
        var j :| 0 <= j < |pieces| && pieces[j].Citation?;
        assert rest[j - 1].Citation?;
      }
    }
  }

  /** The span built for a tag holds the tag itself. */
  lemma SpanHasCitation(digits: string, rest: string)
    requires |digits| >= 1 && AllDigits(digits)
    ensures HasCitation(Span(digits, TagOpen + digits + "]") + rest)
  {
    var front := SpanOpen(digits);
    var tail := "</span>" + rest;
    var tagged := TagOpen + digits + "]" + tail;
    TagIsMatched(digits, tail);
    assert tagged[0..] == tagged;
    HasCitationSuffix(front, tagged);
    Regroup(front, TagOpen + digits + "]", "</span>", rest);
  }


  /** Every wrapped tag still holds a match of the pattern. */
  lemma {:induction false} RenderKeepsCitations(pieces: seq<Piece>)
    requires NumericCitations(pieces)
    requires AnyCitation(pieces)
    ensures HasCitation(Render(pieces))
  {
    var rest := pieces[1..];
    assert pieces == [pieces[0]] + rest;
    RenderCons(pieces[0], rest);
    AnyCitationCons(pieces[0], rest);
    match pieces[0]
    case Citation(digits) =>
      SpanHasCitation(digits, Render(rest));
    case Plain(c) =>
      RenderKeepsCitations(rest);
      HasCitationSuffix([c], Render(rest));
  }

  /** `formatCitations` is not idempotent: each span still contains its
      `[Page N]`, so formatting the output again wraps it a second time. */
  lemma FormatNotIdempotent(html: string)
    requires HasCitation(html)
    ensures FormatCitations(FormatCitations(html)) != FormatCitations(html)
  {
    TokenizeFindsCitation(html);
    TokenizeDigits(html);
    RenderKeepsCitations(Tokenize(html));
  }

  /** A tag whose page part is not a non-empty run of digits is not linked:
      `[Page ?]` and `[Page ]` stay as they are. */
  lemma NonNumericTagUnchanged(page: string)
    requires '[' !in page && ']' !in page
    requires !(|page| >= 1 && AllDigits(page))
    ensures FormatCitations(TagOpen + page + "]") == TagOpen + page + "]"
  {
    var s := TagOpen + page + "]";
    forall i | 0 <= i < |s| ensures MatchAt(s[i..]).None? {
      if i == 0 {
        assert s[0..] == s;
        NonNumericTagNotMatched(page, "");
        assert s + "" == s;
      } else {
        NoTagInsideTag(page, i);
      }
    }
  }

  /** The pattern does not match at a tag whose page part is not a
      non-empty run of digits, whatever follows the tag. */
  lemma NonNumericTagNotMatched(page: string, rest: string)
    requires ']' !in page
    requires !(|page| >= 1 && AllDigits(page))
    ensures MatchAt(TagOpen + page + "]" + rest).None?
  {
    var s := TagOpen + page + "]" + rest;
    var close := 6 + |page|;
    forall k | 6 <= k < close ensures s[k] != ']' {
      assert s[k] == page[k - 6];
    }
    assert s[close] == ']';
    forall j | close < j <= |s| ensures !AllDigits(s[6..j]) {
      assert s[6..j][|page|] == ']';
    }
    assert s[6..close] == page;
    MatchAtIsTag(s);
  }

  lemma NoTagInsideTag(page: string, i: nat)
    requires '[' !in page
    requires 0 < i < |TagOpen + page + "]"|
    ensures MatchAt((TagOpen + page + "]")[i..]).None?
  {
    var s := TagOpen + page + "]";
    assert s[i..][0] == s[i];
    if i < 6 {
      assert s[i] == TagOpen[i];
    } else if i < |s| - 1 {
      assert s[i] == page[i - 6];
    }
  }

  // ---------------------------------------------------------------------------
  // The click handler's argument
  // ---------------------------------------------------------------------------

  predicate IsOctalDigit(c: char) {
    '0' <= c <= '7'
  }

  predicate AllOctal(s: string) {
    forall i :: 0 <= i < |s| ==> IsOctalDigit(s[i])
  }

  function OctalValue(s: string): nat
    requires AllOctal(s)
    decreases |s|
  {
    if s == [] then 0 else OctalValue(s[..|s| - 1]) * 8 + (s[|s| - 1] as int - '0' as int)
  }

  /** The number `jumpToPage(N)` receives from the inline handler: N is a
      numeric literal of non-strict code, so a leading zero followed only
      by octal digits makes it a legacy octal literal; any other digit
      string reads as decimal. */
  function HandlerPageNumber(digits: string): (n: nat)
    requires |digits| >= 1 && AllDigits(digits)
    ensures digits[0] != '0' ==> n == DecimalValue(digits)
    ensures |digits| >= 2 && digits[0] == '0' && AllOctal(digits) ==> n == OctalValue(digits)
  {
    if |digits| >= 2 && digits[0] == '0' && AllOctal(digits) then OctalValue(digits)
    else DecimalValue(digits)
  }

  /** Digits without a leading zero reach the handler as the number they
      denote: rendering a page number and reading it back gives the page. */
  lemma HandlerReadsRenderedPage(page: nat)
    ensures HandlerPageNumber(NatToString(page)) == page
  {
    var s := NatToString(page);
    DecimalValueOfNatToString(page);
    assert s[0] == '0' ==> |s| == 1;
  }

  /** `[Page 010]` is linked to page 8, not page 10. */
  lemma LeadingZeroReadsOctal()
    ensures HandlerPageNumber("010") == 8
  {
    var s := "010";
    assert AllOctal(s);
    assert s[..2] == "01" && OctalValue("01") == 1 by {
      assert "01"[..1] == "0" && OctalValue("0") == 0 by {
        assert "0"[..0] == "";
      }
    }
  }

  // ---------------------------------------------------------------------------
  // jumpToPage
  // ---------------------------------------------------------------------------

  const NoPdfMessage: string := "No PDF loaded yet!"

  /** The frame address for page `pageNum` of `file`. */
  function PageUrl(file: string, pageNum: nat): (url: string)
    ensures |file| + 6 < |url| && url[..|file|] == file && url[|file|..|file| + 6] == "#page="
    ensures AllDigits(url[|file| + 6..]) && DecimalValue(url[|file| + 6..]) == pageNum
  {
    DecimalValueOfNatToString(pageNum);
    var url := file + "#page=" + NatToString(pageNum);
    assert url[|file| + 6..] == NatToString(pageNum);
    url
  }

  /** The page's viewer state: the object URL of the loaded PDF (`null`
      until one is loaded) and the PDF frame's `src`. */
  class Viewer {
    var currentPdfFile: Option<string>
    var frameSrc: string

    constructor (initialSrc: string)
      ensures currentPdfFile == None && frameSrc == initialSrc
    {
      currentPdfFile := None;
      frameSrc := initialSrc;
    }

    /** `currentPdfFile` is truthy: set, and not the empty string. */
    predicate HasFile()
      reads this
    {
      currentPdfFile.Some? && currentPdfFile.value != ""
    }

    /** `jumpToPage`: with a PDF loaded, point the frame at the page;
        otherwise leave the frame alone and return the alert text. */
    method JumpToPage(pageNum: nat) returns (alert: Option<string>)
      modifies this
      ensures currentPdfFile == old(currentPdfFile)
      ensures old(HasFile()) ==> frameSrc == PageUrl(currentPdfFile.value, pageNum) && alert == None
      ensures !old(HasFile()) ==> frameSrc == old(frameSrc) && alert == Some(NoPdfMessage)
    {
      if currentPdfFile.Some? && currentPdfFile.value != "" {
        frameSrc := currentPdfFile.value + "#page=" + NatToString(pageNum);
        alert := None;
      } else {
        alert := Some(NoPdfMessage);
      }
    }

    /** Clicking the span of a `[Page N]` tag. */
    method ClickCitation(digits: string) returns (alert: Option<string>)
      requires |digits| >= 1 && AllDigits(digits)
      modifies this
      ensures currentPdfFile == old(currentPdfFile)
      ensures old(HasFile()) ==>
                frameSrc == PageUrl(currentPdfFile.value, HandlerPageNumber(digits)) && alert == None
      ensures !old(HasFile()) ==> frameSrc == old(frameSrc) && alert == Some(NoPdfMessage)
    {
      alert := JumpToPage(HandlerPageNumber(digits));
    }
  }
}
