/** Text helpers shared by all the puzzle solvers: the error and optional
    wrappers, whitespace splitting as Rust's `str::split_whitespace` does it,
    and the decimal integer parsing of Rust's `str::parse` for unsigned and
    signed integers (without the machine-width overflow check). */
module Text {

  datatype Option<+T> = None | Some(value: T)

  datatype Result<+T, +E> = Ok(value: T) | Err(error: E)

  /** The characters with the Unicode `White_Space` property, at which
      `split_whitespace` splits: tab to carriage return, space, next line,
      no-break space, ogham space mark, the spaces U+2000 to U+200A, the
      line and paragraph separators, and three more spaces. */
  predicate IsSpace(c: char) {
    ('\t' <= c <= '\r') || c == ' ' || c == '\U{0085}' || c == '\U{00A0}' || c == '\U{1680}'
    || ('\U{2000}' <= c <= '\U{200A}') || c == '\U{2028}' || c == '\U{2029}'
    || c == '\U{202F}' || c == '\U{205F}' || c == '\U{3000}'
  }

  /** `front` put before a successful result; an error stays as it is. */
  function Prefixed<T, E>(front: seq<T>, r: Result<seq<T>, E>): Result<seq<T>, E> {
    match r
    case Err(e) => Err(e)
    case Ok(t) => Ok(front + t)
  }

  lemma PrefixedTwice<T, E>(a: seq<T>, b: seq<T>, r: Result<seq<T>, E>)
    ensures Prefixed(a, Prefixed(b, r)) == Prefixed(a + b, r)
    ensures Prefixed([], r) == r
  {
    if r.Ok? {
      assert a + (b + r.value) == (a + b) + r.value;
      assert [] + r.value == r.value;
    }
  }

  predicate NoSpace(s: string) {
    forall i :: 0 <= i < |s| ==> !IsSpace(s[i])
  }

  /** What is left of `s` after its leading whitespace. */
  function SkipSpaces(s: string): (r: string)
    ensures |r| <= |s|
    ensures r == [] || !IsSpace(r[0])
  {
    if s != [] && IsSpace(s[0]) then SkipSpaces(s[1..]) else s
  }

  /** Only whitespace is skipped, and what is left is the rest of `s`. */
  lemma {:induction false} SkipSpacesDrops(s: string)
    ensures SkipSpaces(s) == s[|s| - |SkipSpaces(s)|..]
    ensures forall i :: 0 <= i < |s| - |SkipSpaces(s)| ==> IsSpace(s[i])
  {
    if s != [] && IsSpace(s[0]) {
      var r := SkipSpaces(s[1..]);
      SkipSpacesDrops(s[1..]);
      assert s[1..][|s| - 1 - |r|..] == s[|s| - |r|..];
      assert forall i :: 1 <= i < |s| - |r| ==> s[i] == s[1..][i - 1];
    } else {
      assert s[0..] == s;
    }
  }

  /** The longest prefix of `s` without whitespace. */
  function WordPrefix(s: string): (w: string)
    ensures |w| <= |s|
    ensures s != [] && !IsSpace(s[0]) ==> w != []
  {
    if s == [] || IsSpace(s[0]) then [] else [s[0]] + WordPrefix(s[1..])
  }

  /** The word is a prefix without whitespace, ended by whitespace or by the
      end of `s`. */
  lemma {:induction false} WordPrefixShape(s: string)
    ensures WordPrefix(s) == s[..|WordPrefix(s)|]
    ensures NoSpace(WordPrefix(s))
    ensures |WordPrefix(s)| == |s| || IsSpace(s[|WordPrefix(s)|])
  {
    if s != [] && !IsSpace(s[0]) {
      var w := WordPrefix(s[1..]);
      WordPrefixShape(s[1..]);
      assert WordPrefix(s) == [s[0]] + w;
      assert forall i :: 0 < i <= |w| ==> ([s[0]] + w)[i] == w[i - 1];
      assert s[1..][..|w|] == s[1..|w| + 1];
    }
  }

  /** The maximal runs of non-whitespace characters of `s`, in order. */
  function Words(s: string): (ws: seq<string>)
    ensures forall i :: 0 <= i < |ws| ==> ws[i] != [] && NoSpace(ws[i])
    decreases |s|
  {
    var t := SkipSpaces(s);
    if t == [] then []
    else
      var w := WordPrefix(t);
      WordPrefixShape(t);
      var rest := Words(t[|w|..]);
      assert forall i :: 0 < i <= |rest| ==> ([w] + rest)[i] == rest[i - 1];
      [w] + rest
  }

  lemma {:induction false} WordPrefixStops(w: string, rest: string)
    requires NoSpace(w) && (rest == [] || IsSpace(rest[0]))
    ensures WordPrefix(w + rest) == w
  {
    if w != [] {
      assert (w + rest)[0] == w[0] && (w + rest)[1..] == w[1..] + rest;
      WordPrefixStops(w[1..], rest);
    } else {
      assert w + rest == rest;
    }
  }

  /** A word at the head of a line is its first word. */
  lemma WordsOfFirst(a: string, rest: string)
    requires a != [] && NoSpace(a) && (rest == [] || IsSpace(rest[0]))
    ensures Words(a + rest) == [a] + Words(rest)
  {
    var s := a + rest;
    assert s[0] == a[0];
    assert SkipSpaces(s) == s;
    WordPrefixStops(a, rest);
    assert s[|a|..] == rest;
  }

  lemma WordsAfterSpace(c: char, b: string)
    requires IsSpace(c)
    ensures Words([c] + b) == Words(b)
  {
    assert ([c] + b)[1..] == b;
    assert SkipSpaces([c] + b) == SkipSpaces(b);
  }

  lemma WordsOfOne(a: string)
    requires a != [] && NoSpace(a)
    ensures Words(a) == [a]
  {
    WordsOfFirst(a, []);
    assert a + [] == a;
  }

  /** Two words separated by one space split into exactly those two words. */
  lemma WordsOfTwo(a: string, b: string)
    requires a != [] && b != [] && NoSpace(a) && NoSpace(b)
    ensures Words(a + " " + b) == [a, b]
  {
    assert a + " " + b == a + ([' '] + b);
    WordsOfFirst(a, [' '] + b);
    WordsAfterSpace(' ', b);
    WordsOfOne(b);
  }

  /** A word followed by one space is split off as the first word. */
  lemma WordsCons(a: string, rest: string)
    requires a != [] && NoSpace(a)
    ensures Words(a + " " + rest) == [a] + Words(rest)
  {
    assert a + " " + rest == a + ([' '] + rest);
    WordsOfFirst(a, [' '] + rest);
    WordsAfterSpace(' ', rest);
  }

  /** Words joined by single spaces. */
  function Unwords(ws: seq<string>): string {
    if ws == [] then []
    else if |ws| == 1 then ws[0]
    else ws[0] + " " + Unwords(ws[1..])
  }

  /** Splitting words joined by single spaces gives the words back. */
  lemma {:induction false} WordsOfUnwords(ws: seq<string>)
    requires forall i :: 0 <= i < |ws| ==> ws[i] != [] && NoSpace(ws[i])
    ensures Words(Unwords(ws)) == ws
  {
    if |ws| == 1 {
      WordsOfOne(ws[0]);
    } else if |ws| > 1 {
      var tail := ws[1..];
      assert forall i :: 0 <= i < |tail| ==> tail[i] == ws[i + 1];
      WordsOfUnwords(tail);
      WordsOfUnwordsCons(ws);
    }
  }

  lemma UnwordsCons(ws: seq<string>)
    requires |ws| > 1
    ensures Unwords(ws) == ws[0] + " " + Unwords(ws[1..])
  {
  }

  lemma WordsOfUnwordsCons(ws: seq<string>)
    requires |ws| > 1 && ws[0] != [] && NoSpace(ws[0]) && Words(Unwords(ws[1..])) == ws[1..]
    ensures Words(Unwords(ws)) == ws
  {
    UnwordsCons(ws);
    WordsCons(ws[0], Unwords(ws[1..]));
    assert ws == [ws[0]] + ws[1..];
  }

  /** All characters of `s` that are not whitespace, in order. */
  function Visible(s: string): string {
    if s == [] then []
    else if IsSpace(s[0]) then Visible(s[1..])
    else [s[0]] + Visible(s[1..])
  }

  function Concat(ws: seq<string>): string {
    if ws == [] then [] else ws[0] + Concat(ws[1..])
  }

  lemma {:induction false} VisibleAppend(a: string, b: string)
    ensures Visible(a + b) == Visible(a) + Visible(b)
  {
    if a == [] {
      assert a + b == b;
    } else {
      assert (a + b)[0] == a[0];
      assert (a + b)[1..] == a[1..] + b;
      VisibleAppend(a[1..], b);
    }
  }

  lemma {:induction false} VisibleOfSpaces(s: string)
    requires forall i :: 0 <= i < |s| ==> IsSpace(s[i])
    ensures Visible(s) == []
  {
    if s != [] {
      VisibleOfSpaces(s[1..]);
    }
  }

  lemma {:induction false} VisibleOfWord(s: string)
    requires NoSpace(s)
    ensures Visible(s) == s
  {
    if s != [] {
      VisibleOfWord(s[1..]);
    }
  }

  /** Leading whitespace is not visible. */
  lemma VisibleSkip(s: string)
    ensures Visible(s) == Visible(SkipSpaces(s))
  {
    var t := SkipSpaces(s);
    SkipSpacesDrops(s);
    var blank := s[..|s| - |t|];
    assert s == blank + t;
    VisibleAppend(blank, t);
    assert forall i :: 0 <= i < |blank| ==> blank[i] == s[i];
    VisibleOfSpaces(blank);
  }

  /** A line that starts with a word shows that word first. */
  lemma VisibleWord(t: string)
    ensures Visible(t) == WordPrefix(t) + Visible(t[|WordPrefix(t)|..])
  {
    var w := WordPrefix(t);
    WordPrefixShape(t);
    assert t == w + t[|w|..];
    VisibleAppend(w, t[|w|..]);
    VisibleOfWord(w);
  }

  lemma ConcatCons(w: string, ws: seq<string>)
    ensures Concat([w] + ws) == w + Concat(ws)
  {
    assert ([w] + ws)[1..] == ws;
  }

  /** Splitting loses exactly the whitespace: the words, joined back
      together, are the visible characters of the line. */
  lemma {:induction false} WordsKeepVisible(s: string)
    ensures Concat(Words(s)) == Visible(s)
    decreases |s|
  {
    var t := SkipSpaces(s);
    VisibleSkip(s);
    if t != [] {
      var w := WordPrefix(t);
      var rest := t[|w|..];
      assert Words(s) == [w] + Words(rest);
      VisibleWord(t);
      WordsKeepVisible(rest);
      ConcatCons(w, Words(rest));
    }
  }

  // ---------------------------------------------------------------- byte lengths

  /** The number of bytes the UTF-8 encoding of `c` takes. */
  function Utf8Width(c: char): nat {
    if c as int < 0x80 then 1 else if c as int < 0x800 then 2 else if c as int < 0x10000 then 3 else 4
  }

  /** `str::len`: the length of a string in UTF-8 bytes. */
  function Utf8Len(s: string): nat {
    if s == [] then 0 else Utf8Width(s[0]) + Utf8Len(s[1..])
  }

  /** On a line of ASCII characters the byte length is the character count. */
  lemma {:induction false} AsciiLen(s: string)
    requires forall i :: 0 <= i < |s| ==> s[i] as int < 0x80
    ensures Utf8Len(s) == |s|
  {
    if s != [] {
      AsciiLen(s[1..]);
    }
  }

  /** Every character takes at least one byte and at most four. */
  lemma {:induction false} Utf8LenBounds(s: string)
    ensures |s| <= Utf8Len(s) <= 4 * |s|
  {
    if s != [] {
      Utf8LenBounds(s[1..]);
    }
  }

  /** `str::starts_with`. */
  predicate StartsWith(s: string, prefix: string) {
    |prefix| <= |s| && s[..|prefix|] == prefix
  }

  predicate IsDigit(c: char) {
    '0' <= c <= '9'
  }

  predicate AllDigits(s: string) {
    forall i :: 0 <= i < |s| ==> IsDigit(s[i])
  }

  /** The value of a string of decimal digits, most significant first. */
  function DigitsValue(s: string): nat
    requires AllDigits(s)
  {
    if s == [] then 0 else 10 * DigitsValue(s[..|s| - 1]) + (s[|s| - 1] as int - '0' as int)
  }

  lemma DigitsHaveNoSpace(s: string)
    requires AllDigits(s)
    ensures NoSpace(s)
  {
    assert forall i :: 0 <= i < |s| ==> IsDigit(s[i]);
  }

  lemma DigitsValueAppend(s: string, c: char)
    requires AllDigits(s) && IsDigit(c)
    ensures AllDigits(s + [c])
    ensures DigitsValue(s + [c]) == 10 * DigitsValue(s) + (c as int - '0' as int)
  {
    assert (s + [c])[..|s|] == s;
  }

  function ParseDigits(s: string): (r: Option<nat>)
    ensures r.Some? <==> s != [] && AllDigits(s)
  {
    if s != [] && AllDigits(s) then Some(DigitsValue(s)) else None
  }

  /** `str::parse::<usize>()` (also `u64`): an optional `+`, then one or more digits. */
  function ParseNat(s: string): (r: Option<nat>)
    ensures r.Some? <==> (if s != [] && s[0] == '+' then s[1..] != [] && AllDigits(s[1..])
                          else s != [] && AllDigits(s))
  {
    if s != [] && s[0] == '+' then ParseDigits(s[1..]) else ParseDigits(s)
  }

  /** `str::parse::<i32>()`: an optional `+` or `-`, then one or more digits. */
  function ParseInt(s: string): (r: Option<int>)
    ensures r.Some? <==> (if s != [] && (s[0] == '+' || s[0] == '-') then s[1..] != [] && AllDigits(s[1..])
                          else s != [] && AllDigits(s))
    ensures r.Some? && s[0] != '-' ==> r.value >= 0
  {
    if s != [] && s[0] == '-' then
      match ParseDigits(s[1..])
      case Some(n) => Some(-(n as int))
      case None => None
    else if s != [] && s[0] == '+' then
      match ParseDigits(s[1..])
      case Some(n) => Some(n)
      case None => None
    else
      match ParseDigits(s)
      case Some(n) => Some(n)
      case None => None
  }

  /** The decimal spelling of `n` without sign or leading zeros. */
  function NatToString(n: nat): (s: string)
    ensures s != [] && AllDigits(s)
  {
    if n < 10 then [('0' as int + n) as char]
    else NatToString(n / 10) + [('0' as int + n % 10) as char]
  }

  lemma {:induction false} DigitsOfNatToString(n: nat)
    ensures DigitsValue(NatToString(n)) == n
  {
    var s := NatToString(n);
    if n >= 10 {
      assert s[..|s| - 1] == NatToString(n / 10);
      DigitsOfNatToString(n / 10);
    }
  }

  /** Parsing the decimal spelling of a number gives the number back. */
  lemma ParseNatRoundTrip(n: nat)
    ensures ParseNat(NatToString(n)) == Some(n)
  {
    DigitsOfNatToString(n);
  }
}
