/** The reference-string parser of the visualiser: the text the user types
    is trimmed, split on runs of white space, and every token read with
    `Number.parseInt(token, 10)`; a token that reads as NaN rejects the whole
    text, and the previously parsed list stays in place. The scans below
    walk a position through the text, as the JavaScript built-ins do. */
module ReferenceParser {
  import opened Wrappers

  /** The characters JavaScript's `trim` removes and `\s` matches: the
      ECMAScript WhiteSpace and LineTerminator characters. */
  predicate IsSpace(c: char) {
    c == ' ' || c == '\t' || c == '\n' || c == '\U{000B}' || c == '\U{000C}' || c == '\r'
    || c == '\U{00A0}' || c == '\U{1680}' || ('\U{2000}' <= c <= '\U{200A}')
    || c == '\U{2028}' || c == '\U{2029}' || c == '\U{202F}' || c == '\U{205F}'
    || c == '\U{3000}' || c == '\U{FEFF}'
  }

  predicate IsDigit(c: char) {
    '0' as int <= c as int <= '9' as int
  }

  predicate NoSpace(s: string) {
    forall i :: 0 <= i < |s| ==> !IsSpace(s[i])
  }

  /** Every character is white space (the empty text included). */
  predicate Blank(s: string) {
    forall i :: 0 <= i < |s| ==> IsSpace(s[i])
  }

  // ---------------------------------------------------------------------
  // trim and split(/\s+/)

  /** The first position at or after `i` that is not white space, or |s|. */
  function SkipSpaces(s: string, i: nat): (j: nat)
    requires i <= |s|
    ensures i <= j <= |s| && (forall k :: i <= k < j ==> IsSpace(s[k]))
    ensures j < |s| ==> !IsSpace(s[j])
    decreases |s| - i
  {
    if i < |s| && IsSpace(s[i]) then SkipSpaces(s, i + 1) else i
  }

  /** Scanning back from `j`: the end of the text once the white space
      just before `j` is dropped. */
  function SkipSpacesBack(s: string, j: nat): (i: nat)
    requires j <= |s|
    ensures i <= j && (forall k :: i <= k < j ==> IsSpace(s[k]))
    ensures i > 0 ==> !IsSpace(s[i - 1])
  {
    if j > 0 && IsSpace(s[j - 1]) then SkipSpacesBack(s, j - 1) else j
  }

  /** The first white-space position at or after `i`, or |s|. */
  function NextSpace(s: string, i: nat): (j: nat)
    requires i <= |s|
    ensures i <= j <= |s| && (forall k :: i <= k < j ==> !IsSpace(s[k]))
    ensures j < |s| ==> IsSpace(s[j])
    decreases |s| - i
  {
    if i < |s| && !IsSpace(s[i]) then NextSpace(s, i + 1) else i
  }

  /** `trim`: white space removed from both ends. The result is the text
      between a blank prefix and a blank suffix, and it neither starts nor
      ends with white space, which fixes it. An all-blank text gives the
      empty slice at the end of the leading white space. */
  function Trim(s: string): (r: string)
    ensures |r| == 0 || (!IsSpace(r[0]) && !IsSpace(r[|r| - 1]))
    ensures exists a, b :: 0 <= a <= b <= |s| && r == s[a..b] && Blank(s[..a]) && Blank(s[b..])
  {
    var a := SkipSpaces(s, 0);
    var b := SkipSpacesBack(s, |s|);
    var e := if b <= a then a else b;
    assert Blank(s[..a]) && Blank(s[e..]);
    s[a..e]
  }

  /** `split(/\s+/)` of the text from position `i` on: the pieces between
      maximal runs of white space; an empty rest gives one empty piece, and
      so does a run at either end. */
  function SplitFrom(s: string, i: nat): (parts: seq<string>)
    requires i <= |s|
    ensures |parts| >= 1
    ensures forall p :: 0 <= p < |parts| ==> NoSpace(parts[p])
    ensures i < |s| && !IsSpace(s[i]) ==> |parts[0]| >= 1
    ensures forall p :: 0 < p < |parts| - 1 ==> |parts[p]| >= 1
    decreases |s| - i
  {
    var f := NextSpace(s, i);
    if f == |s| then [s[i..]]
    else [s[i..f]] + SplitFrom(s, SkipSpaces(s, f))
  }

  /** `split(/\s+/)`: no piece holds white space, and only the first piece
      (when the text starts with white space) and the last (when it ends
      with it) can be empty; `SplitCover` shows the pieces make up the
      text. */
  function Split(s: string): (parts: seq<string>)
    ensures |parts| >= 1
    ensures forall p :: 0 <= p < |parts| ==> NoSpace(parts[p])
    ensures |s| > 0 && !IsSpace(s[0]) ==> |parts[0]| >= 1
    ensures forall p :: 0 < p < |parts| - 1 ==> |parts[p]| >= 1
  {
    SplitFrom(s, 0)
  }

  // ---------------------------------------------------------------------
  // parseInt(token, 10)

  /** The first position at or after `i` that is not a decimal digit. */
  function DigitEnd(s: string, i: nat): (j: nat)
    requires i <= |s|
    ensures i <= j <= |s| && (forall k :: i <= k < j ==> IsDigit(s[k]))
    ensures j < |s| ==> !IsDigit(s[j])
    decreases |s| - i
  {
    if i < |s| && IsDigit(s[i]) then DigitEnd(s, i + 1) else i
  }

  function DigitValue(c: char): (d: nat)
    requires IsDigit(c)
    ensures d < 10
  {
    c as int - '0' as int
  }

  /** The value of the digits at positions `i` to `j - 1`, most significant
      first. */
  function DigitsValue(s: string, i: nat, j: nat): nat
    requires i <= j <= |s| && forall k :: i <= k < j ==> IsDigit(s[k])
    decreases j
  {
    if j == i then 0 else DigitsValue(s, i, j - 1) * 10 + DigitValue(s[j - 1])
  }

  /** `Number.parseInt(token, 10)`, `None` standing for NaN: leading white
      space is skipped, one `+` or `-` is accepted, and the value is that of
      the longest run of digits after it; no digit there gives NaN, so a
      token without any digit is always NaN. `-0` reads as 0, which every
      comparison of the source treats as 0. */
  function ParseInt(token: string): (r: Option<int>)
    ensures r.Some? ==> exists k :: 0 <= k < |token| && IsDigit(token[k])
  {
    var u := SkipSpaces(token, 0);
    var signed := u < |token| && (token[u] == '-' || token[u] == '+');
    ReadDigits(token, if signed then u + 1 else u, signed && token[u] == '-')
  }

  /** The longest run of digits from position `b`, negated when `negative`;
      NaN when there is no digit at `b`. */
  function ReadDigits(token: string, b: nat, negative: bool): (r: Option<int>)
    requires b <= |token|
    ensures r.Some? <==> b < |token| && IsDigit(token[b])
  {
    var e := DigitEnd(token, b);
    if e == b then None
    else
      var v: int := DigitsValue(token, b, e);
      Some(if negative then -v else v)
  }

  // ---------------------------------------------------------------------
  // The whole reference string

  /** `tokens.map(parseInt)`, where the first NaN throws: either every token
      reads as a number and the list has one number per token, or the
      whole list is rejected. */
  function ParseAll(tokens: seq<string>): (r: Option<seq<int>>)
    ensures r.Some? <==> forall i :: 0 <= i < |tokens| ==> ParseInt(tokens[i]).Some?
    ensures r.Some? ==>
      |r.value| == |tokens| && forall i :: 0 <= i < |tokens| ==> ParseInt(tokens[i]) == Some(r.value[i])
  {
    if |tokens| == 0 then Some([])
    else
      match ParseInt(tokens[0])
      case None => None
      case Some(v) =>
        match ParseAll(tokens[1..])
        case None => None
        case Some(vs) => Some([v] + vs)
  }

  /** The body of the parser effect up to `setParsedReferenceString`: the
      page list, or `None` where the source throws. The text is accepted
      exactly when every token of the trimmed, split text reads as a
      number, and then the list holds those numbers, one per token. */
  function ParseReferences(text: string): (r: Option<seq<int>>)
    ensures var tokens := Split(Trim(text));
      r.Some? <==> forall i :: 0 <= i < |tokens| ==> ParseInt(tokens[i]).Some?
    ensures var tokens := Split(Trim(text));
      r.Some? ==> |r.value| == |tokens| >= 1 && forall i :: 0 <= i < |tokens| ==> ParseInt(tokens[i]) == Some(r.value[i])
  {
    ParseAll(Split(Trim(text)))
  }

  /** What the component keeps from its input box. */
  datatype ParserState = ParserState(parsed: seq<int>, error: string)

  const InvalidInput: string := "Please enter valid numbers separated by spaces"

  /** The parser effect on a new text: on success it stores the list and
      clears the error; on failure it keeps the list it had and shows the
      error message. */
  function OnReferenceString(text: string, st: ParserState): (r: ParserState)
    ensures r.error == "" || r.error == InvalidInput
  {
    match ParseReferences(text)
    case Some(pages) => ParserState(pages, "")
    case None => st.(error := InvalidInput)
  }

  // ---------------------------------------------------------------------
  // Properties of trim and split

  /** `trim` gives the empty text exactly when the text is all white space. */
  lemma TrimBlank(s: string)
    ensures Trim(s) == [] <==> Blank(s)
  {
    var a := SkipSpaces(s, 0);
    var b := SkipSpacesBack(s, |s|);
    if k :| 0 <= k < |s| && !IsSpace(s[k]) {
      assert a <= k < b;
    } else {
      assert a == |s|;
    }
  }

  /** `trim` changes nothing in a text with no white space at either end. */
  lemma TrimNoop(s: string)
    requires |s| >= 1 && !IsSpace(s[0]) && !IsSpace(s[|s| - 1])
    ensures Trim(s) == s
  {
    assert SkipSpaces(s, 0) == 0;
    assert SkipSpacesBack(s, |s|) == |s|;
  }

  /** Trimming twice is trimming once. */
  lemma TrimIdempotent(s: string)
    ensures Trim(Trim(s)) == Trim(s)
  {
    if Trim(s) != [] {
      TrimNoop(Trim(s));
    }
  }

  /** `trim` removes exactly the white space around a text that neither
      starts nor ends with white space. */
  lemma TrimPadded(lead: string, x: string, trail: string)
    requires Blank(lead) && Blank(trail) && |x| >= 1 && !IsSpace(x[0]) && !IsSpace(x[|x| - 1])
    ensures Trim(lead + x + trail) == x
  {
    var s := lead + x + trail;
    var a, b := |lead|, |lead| + |x|;
    assert s[a] == x[0] && s[b - 1] == x[|x| - 1];
    SkipSpacesTo(s, 0, a);
    SkipSpacesBackTo(s, |s|, b);
    assert s[a..b] == x;
  }

  /** `SkipSpaces` from `i` over white space up to `j`, where a character
      that is not white space or the end of the text follows. */
  lemma SkipSpacesTo(s: string, i: nat, j: nat)
    requires i <= j <= |s| && (forall k :: i <= k < j ==> IsSpace(s[k]))
    requires j == |s| || !IsSpace(s[j])
    ensures SkipSpaces(s, i) == j
  {
  }

  /** `SkipSpacesBack` from `j` over white space down to `i`, where a
      character that is not white space or the start of the text precedes. */
  lemma SkipSpacesBackTo(s: string, j: nat, i: nat)
    requires i <= j <= |s| && (forall k :: i <= k < j ==> IsSpace(s[k]))
    requires i == 0 || !IsSpace(s[i - 1])
    ensures SkipSpacesBack(s, j) == i
  {
  }

  /** `NextSpace` from the start of a space-free stretch of `len`
      characters that ends the text or is followed by white space. */
  lemma {:induction false} NextSpaceAfter(s: string, i: nat, len: nat)
    requires i + len <= |s| && (forall k :: i <= k < i + len ==> !IsSpace(s[k]))
    requires i + len == |s| || IsSpace(s[i + len])
    ensures NextSpace(s, i) == i + len
    decreases len
  {
    if len > 0 {
      NextSpaceAfter(s, i + 1, len - 1);
    }
  }

  /** Pieces with separators between them: `parts[0] + seps[0] + parts[1] +
      ... + parts[|parts| - 1]`. */
  function Interleave(parts: seq<string>, seps: seq<string>): string
    requires |parts| >= 1 && |seps| == |parts| - 1
    decreases |parts|
  {
    if |parts| == 1 then parts[0] else parts[0] + seps[0] + Interleave(parts[1..], seps[1..])
  }

  /** Every token is non-empty and free of white space. */
  predicate Words(tokens: seq<string>) {
    forall p :: 0 <= p < |tokens| ==> |tokens[p]| >= 1 && NoSpace(tokens[p])
  }

  /** Every separator is a non-empty run of white space, as `\s+` matches. */
  predicate Gaps(seps: seq<string>) {
    forall p :: 0 <= p < |seps| ==> |seps[p]| >= 1 && Blank(seps[p])
  }

  /** `split(/\s+/)` cuts a text at its maximal runs of white space: the
      pieces, with a non-empty run of white space between each two, make up
      the text again. */
  lemma {:induction false} SplitCover(s: string, i: nat)
    requires i <= |s|
    ensures var parts := SplitFrom(s, i);
      exists seps :: |seps| == |parts| - 1 && Gaps(seps) && s[i..] == Interleave(parts, seps)
    decreases |s| - i
  {
    var parts := SplitFrom(s, i);
    var f := NextSpace(s, i);
    if f == |s| {
      assert s[i..] == Interleave(parts, []);
    } else {
      var g := SkipSpaces(s, f);
      SplitCover(s, g);
      var rest := SplitFrom(s, g);
      var more :| |more| == |rest| - 1 && Gaps(more) && s[g..] == Interleave(rest, more);
      var gap := s[f..g];
      assert |gap| >= 1 && Blank(gap);
      GapsCons(gap, more);
      var seps := [gap] + more;
      assert parts == [s[i..f]] + rest;
      assert parts[1..] == rest && seps[1..] == more;
      Cut(s, i, f, g);
    }
  }

  lemma GapsCons(gap: string, more: seq<string>)
    requires |gap| >= 1 && Blank(gap) && Gaps(more)
    ensures Gaps([gap] + more)
  {
  }

  /** A text from `i` on is its pieces up to `f`, from `f` to `g` and
      from `g` on. */
  lemma Cut(s: string, i: nat, f: nat, g: nat)
    requires i <= f <= g <= |s|
    ensures s[i..] == s[i..f] + s[f..g] + s[g..]
  {
    assert s[i..] == s[i..f] + s[f..];
    assert s[f..] == s[f..g] + s[g..];
  }

  /** Non-empty, space-free tokens with white space between them begin and
      end with a character that is not white space. */
  lemma {:induction false} InterleaveEnds(tokens: seq<string>, seps: seq<string>)
    requires |tokens| >= 1 && |seps| == |tokens| - 1 && Words(tokens)
    ensures var s := Interleave(tokens, seps); |s| >= 1 && !IsSpace(s[0]) && !IsSpace(s[|s| - 1])
    decreases |tokens|
  {
    if |tokens| > 1 {
      InterleaveEnds(tokens[1..], seps[1..]);
    }
  }

  /** A space-free token at position `i` that ends the text or is followed
      by white space ends where the next white space begins. */
  lemma TokenAt(s: string, i: nat, t: string)
    requires i + |t| <= |s| && s[i..i + |t|] == t && NoSpace(t)
    requires i + |t| == |s| || IsSpace(s[i + |t|])
    ensures NextSpace(s, i) == i + |t|
  {
    forall k | i <= k < i + |t| ensures !IsSpace(s[k]) {
      assert s[k] == s[i..i + |t|][k - i];
    }
    NextSpaceAfter(s, i, |t|);
  }

  /** Where a token, a separator and the rest sit in a text. */
  lemma JoinedAt(s: string, i: nat, t: string, g: string, rest: string)
    requires i <= |s| && s[i..] == t + g + rest
    ensures i + |t| + |g| <= |s| && s[i..i + |t|] == t && s[i + |t|..i + |t| + |g|] == g
    ensures s[i + |t| + |g|..] == rest
    ensures |rest| > 0 ==> s[i + |t| + |g|] == rest[0]
  {
    assert s[i..][..|t|] == t;
    assert s[i..][|t|..|t| + |g|] == g;
    assert s[i..][|t| + |g|..] == rest;
  }

  /** A space-free token at position `i` followed by white space is the
      first piece of the split from `i`. */
  lemma SplitStep(s: string, i: nat, t: string)
    requires i + |t| < |s| && s[i..i + |t|] == t && NoSpace(t) && IsSpace(s[i + |t|])
    ensures SplitFrom(s, i) == [t] + SplitFrom(s, SkipSpaces(s, i + |t|))
  {
    TokenAt(s, i, t);
  }

  lemma SplitLast(s: string, i: nat, t: string)
    requires i <= |s| && s[i..] == t && NoSpace(t)
    ensures SplitFrom(s, i) == [t]
  {
    assert s[i..i + |t|] == s[i..];
    TokenAt(s, i, t);
  }

  /** A token, then a run of white space ending at `j` before a character
      that is not white space: the split from `i` is the token and then the
      split from `j`. */
  lemma SplitNext(s: string, i: nat, t: string, j: nat)
    requires i + |t| < j < |s| && s[i..i + |t|] == t && NoSpace(t)
    requires (forall k :: i + |t| <= k < j ==> IsSpace(s[k])) && !IsSpace(s[j])
    ensures SplitFrom(s, i) == [t] + SplitFrom(s, j)
  {
    SplitStep(s, i, t);
    SkipSpacesTo(s, i + |t|, j);
  }

  /** A text whose rest is the tokens interleaved with white space, with
      more than one token, splits into the first token and what follows the
      first separator. */
  lemma SplitCons(s: string, i: nat, tokens: seq<string>, seps: seq<string>) returns (j: nat)
    requires |tokens| > 1 && |seps| == |tokens| - 1 && Words(tokens) && Gaps(seps)
    requires i <= |s| && s[i..] == Interleave(tokens, seps)
    ensures j <= |s| && s[j..] == Interleave(tokens[1..], seps[1..])
    ensures SplitFrom(s, i) == [tokens[0]] + SplitFrom(s, j)
  {
    var t, g := tokens[0], seps[0];
    var rest := Interleave(tokens[1..], seps[1..]);
    JoinedAt(s, i, t, g, rest);
    InterleaveEnds(tokens[1..], seps[1..]);
    j := i + |t| + |g|;
    forall k | i + |t| <= k < j ensures IsSpace(s[k]) {
      assert s[k] == g[k - i - |t|];
    }
    SplitNext(s, i, t, j);
  }

  /** Splitting, from position `i`, a text whose rest is non-empty,
      space-free tokens with a run of white space between each two gives
      those tokens back. */
  lemma {:induction false} SplitJoin(s: string, i: nat, tokens: seq<string>, seps: seq<string>)
    requires |tokens| >= 1 && |seps| == |tokens| - 1 && Words(tokens) && Gaps(seps)
    requires i <= |s| && s[i..] == Interleave(tokens, seps)
    ensures SplitFrom(s, i) == tokens
    decreases |tokens|
  {
    if |tokens| == 1 {
      SplitLast(s, i, tokens[0]);
    } else {
      var j := SplitCons(s, i, tokens, seps);
      SplitJoin(s, j, tokens[1..], seps[1..]);
      assert tokens == [tokens[0]] + tokens[1..];
    }
  }

  // ---------------------------------------------------------------------
  // Properties of parseInt

  /** Decimal rendering. */
  function NatToString(n: nat): (s: string)
    ensures |s| >= 1 && (forall k :: 0 <= k < |s| ==> IsDigit(s[k]))
    ensures DigitsValue(s, 0, |s|) == n
  {
    var last := [((n % 10) + '0' as int) as char];
    if n < 10 then last
    else
      var prefix := NatToString(n / 10);
      var s := prefix + last;
      assert s[0..|prefix|] == prefix == prefix[0..|prefix|];
      DigitsValueAt(s, prefix, 0, 0, |prefix|);
      s
  }

  /** Decimal rendering, with a minus sign for a negative number. */
  function IntToString(n: int): (s: string)
    ensures |s| >= 1 && NoSpace(s) && (IsDigit(s[0]) <==> n >= 0)
  {
    if n < 0 then "-" + NatToString(-n) else NatToString(n)
  }

  /** Digits read from a text equal the same digits read from any text that
      holds them at another position. */
  lemma {:induction false} DigitsValueAt(s: string, ds: string, i: nat, d: nat, len: nat)
    requires i + len <= |s| && d + len <= |ds| && s[i..i + len] == ds[d..d + len]
    requires forall k :: d <= k < d + len ==> IsDigit(ds[k])
    requires forall k :: i <= k < i + len ==> IsDigit(s[k])
    ensures DigitsValue(s, i, i + len) == DigitsValue(ds, d, d + len)
    decreases len
  {
    if len > 0 {
      var a, b := s[i..i + len - 1], ds[d..d + len - 1];
      forall k | 0 <= k < len - 1 ensures a[k] == b[k] {
        assert s[i + k] == s[i..i + len][k] && ds[d + k] == ds[d..d + len][k];
      }
      assert a == b;
      DigitsValueAt(s, ds, i, d, len - 1);
      assert s[i + len - 1] == s[i..i + len][len - 1];
      assert ds[d + len - 1] == ds[d..d + len][len - 1];
    }
  }

  /** `DigitEnd` from the start of a stretch of `len` digits that ends the
      text or is followed by a character that is not a digit. */
  lemma {:induction false} DigitEndAfter(s: string, i: nat, len: nat)
    requires i + len <= |s| && (forall k :: i <= k < i + len ==> IsDigit(s[k]))
    requires i + len == |s| || !IsDigit(s[i + len])
    ensures DigitEnd(s, i) == i + len
    decreases len
  {
    if len > 0 {
      DigitEndAfter(s, i + 1, len - 1);
    }
  }

  /** A run of digits at position `b` of a token, followed by the end of the
      token or by something that is not a digit, is read whole. */
  lemma ReadDigitsAt(token: string, b: nat, ds: string)
    requires b + |ds| <= |token| && token[b..b + |ds|] == ds
    requires forall k :: 0 <= k < |ds| ==> IsDigit(ds[k])
    requires b + |ds| == |token| || !IsDigit(token[b + |ds|])
    ensures DigitEnd(token, b) == b + |ds|
    ensures DigitsValue(token, b, b + |ds|) == DigitsValue(ds, 0, |ds|)
  {
    forall k | b <= k < b + |ds| ensures IsDigit(token[k]) {
      assert token[k] == token[b..b + |ds|][k - b];
    }
    DigitEndAfter(token, b, |ds|);
    assert ds[0..|ds|] == ds;
    DigitsValueAt(token, ds, b, 0, |ds|);
    assert DigitsValue(ds, 0, 0 + |ds|) == DigitsValue(ds, 0, |ds|);
  }

  /** One optional sign: nothing, `+` or `-`. */
  predicate Sign(sign: string) {
    sign == "" || sign == "+" || sign == "-"
  }

  /** `parseInt` of leading white space, an optional sign and a run of
      digits, leading zeros allowed, followed by anything that does not
      start with a digit: the value of the digits, negated after `-`.
      `"+7"` and `"007"` read as 7, `"12abc"` as 12. */
  lemma ParseIntValue(ws: string, sign: string, ds: string, rest: string)
    requires Blank(ws) && Sign(sign)
    requires |ds| >= 1 && forall k :: 0 <= k < |ds| ==> IsDigit(ds[k])
    requires |rest| == 0 || !IsDigit(rest[0])
    ensures var v: int := DigitsValue(ds, 0, |ds|);
      ParseInt(ws + sign + ds + rest) == Some(if sign == "-" then -v else v)
  {
    var token := ws + sign + ds + rest;
    SignAt(token, ws, sign, ds + rest);
    ReadDigitsValue(token, |ws| + |sign|, ds, rest, sign == "-");
  }

  /** A run of digits at position `b`, then something that does not start
      with a digit: it is read as its value, negated when `negative`. */
  lemma ReadDigitsValue(token: string, b: nat, ds: string, rest: string, negative: bool)
    requires b <= |token| && token[b..] == ds + rest
    requires |ds| >= 1 && forall k :: 0 <= k < |ds| ==> IsDigit(ds[k])
    requires |rest| == 0 || !IsDigit(rest[0])
    ensures var v: int := DigitsValue(ds, 0, |ds|);
      ReadDigits(token, b, negative) == Some(if negative then -v else v)
  {
    assert token[b..b + |ds|] == ds;
    if b + |ds| < |token| {
      assert token[b + |ds|] == token[b..][|ds|] == rest[0];
    }
    ReadDigitsAt(token, b, ds);
  }

  /** After the leading white space `ws`, `parseInt` takes `sign` as the
      sign when the rest does not start with one of its own. */
  lemma SignAt(token: string, ws: string, sign: string, rest: string)
    requires token == ws + sign + rest && Blank(ws) && Sign(sign)
    requires |rest| > 0 && !IsSpace(rest[0]) && (sign == "" ==> rest[0] != '+' && rest[0] != '-')
    ensures ParseInt(token) == ReadDigits(token, |ws| + |sign|, sign == "-")
  {
    var u := |ws|;
    assert token[u] == if sign == "" then rest[0] else sign[0];
    SkipSpacesTo(token, 0, u);
  }

  /** `parseInt` gives NaN when no digit follows the leading white space and
      the optional sign: `""`, `"-"`, `"+x"`, `"a2"` and `"--1"` are NaN.
      Here `ws` is all of the leading white space and `sign` the sign, if
      there is one. */
  lemma ParseIntNaN(ws: string, sign: string, rest: string)
    requires Blank(ws) && Sign(sign)
    requires |rest| == 0 || !IsDigit(rest[0])
    requires sign == "" && |rest| > 0 ==> !IsSpace(rest[0]) && rest[0] != '+' && rest[0] != '-'
    ensures ParseInt(ws + sign + rest) == None
  {
    var token := ws + sign + rest;
    var b := |ws| + |sign|;
    if |ws| < |token| {
      assert token[|ws|] == if sign == "" then rest[0] else sign[0];
    }
    SkipSpacesTo(token, 0, |ws|);
    if b < |token| {
      assert token[b] == rest[0];
    }
  }

  /** `parseInt` reads a rendered number back, whatever follows it as long
      as it does not start with a digit. */
  lemma ParseIntPrefix(n: int, rest: string)
    requires |rest| == 0 || !IsDigit(rest[0])
    ensures ParseInt(IntToString(n) + rest) == Some(n)
  {
    var sign: string := if n < 0 then "-" else "";
    var ds := NatToString(if n < 0 then -n else n);
    assert IntToString(n) == sign + ds;
    assert [] + sign == sign;
    ParseIntValue([], sign, ds, rest);
  }

  /** `tokens.map(parseInt)` over tokens that each read as the number at
      the same place gives those numbers. */
  lemma {:induction false} ParseAllExact(tokens: seq<string>, pages: seq<int>)
    requires |tokens| == |pages|
    requires forall i :: 0 <= i < |tokens| ==> ParseInt(tokens[i]) == Some(pages[i])
    ensures ParseAll(tokens) == Some(pages)
  {
    if |tokens| > 0 {
      ParseAllExact(tokens[1..], pages[1..]);
      assert pages == [pages[0]] + pages[1..];
    }
  }

  // ---------------------------------------------------------------------
  // Properties of the reference string

  /** A text with no number in it, the empty text included, is rejected,
      and the effect keeps the list it had. */
  lemma BlankRejected(text: string, st: ParserState)
    requires Blank(text)
    ensures ParseReferences(text) == None
    ensures OnReferenceString(text, st) == st.(error := InvalidInput)
  {
    TrimBlank(text);
    assert Split([]) == [[]];
  }

  /** Whether the effect accepts a text: an accepted text is stored as the
      list it parses to, and the error is cleared; a rejected text shows
      the error and leaves the stored list as it was. */
  lemma EffectOutcome(text: string, st: ParserState)
    ensures var r := OnReferenceString(text, st);
      (r.error == "" <==> ParseReferences(text).Some?)
      && (r.error == "" ==> Some(r.parsed) == ParseReferences(text) && |r.parsed| == |Split(Trim(text))| >= 1)
      && (r.error != "" ==> r.error == InvalidInput && r.parsed == st.parsed)
  {
  }

  /** The numbers in decimal. */
  function Decimals(pages: seq<int>): (tokens: seq<string>)
    ensures |tokens| == |pages| && Words(tokens)
  {
    seq(|pages|, i requires 0 <= i < |pages| => IntToString(pages[i]))
  }

  /** Any non-empty list of page numbers, typed in decimal with any runs of
      white space between them and around them, is read back exactly. */
  lemma RoundTrip(pages: seq<int>, seps: seq<string>, lead: string, trail: string)
    requires |pages| >= 1 && |seps| == |pages| - 1 && Gaps(seps) && Blank(lead) && Blank(trail)
    ensures ParseReferences(lead + Interleave(Decimals(pages), seps) + trail) == Some(pages)
  {
    var tokens := Decimals(pages);
    var s := Interleave(tokens, seps);
    InterleaveEnds(tokens, seps);
    TrimPadded(lead, s, trail);
    assert s[0..] == s;
    SplitJoin(s, 0, tokens, seps);
    forall i | 0 <= i < |tokens| ensures ParseInt(tokens[i]) == Some(pages[i]) {
      ParseIntPrefix(pages[i], []);
      assert IntToString(pages[i]) + [] == tokens[i];
    }
    ParseAllExact(tokens, pages);
  }
}
