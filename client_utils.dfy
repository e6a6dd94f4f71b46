/**
 * Display helpers of the client (frontend/src/lib/utils.jsx and its typed
 * twin frontend/src/lib/utils.ts, which share these bodies). Numbers are
 * whole minutes and character counts; JavaScript's floating point is not
 * modelled.
 */
module ClientUtils {
  import opened Text

  /** JavaScript `%`: the remainder takes the sign of the dividend. */
  function JsRem(a: int, b: int): (r: int)
    requires b > 0
    ensures a >= 0 ==> 0 <= r < b && r == a % b
    ensures a < 0 ==> -b < r <= 0 && -r == (-a) % b
  {
    if a >= 0 then a % b else -((-a) % b)
  }

  /** formatDuration(minutes): "{h}h {m}m" when Math.floor(minutes / 60) is
      positive, "{minutes % 60}m" otherwise. */
  function FormatDuration(minutes: int): (s: string)
    ensures minutes >= 60 ==>
      s == IntToString(minutes / 60) + "h " + IntToString(minutes % 60) + "m"
    ensures 0 <= minutes < 60 ==> s == IntToString(minutes) + "m"
  {
    var hours := minutes / 60;  // Math.floor: for a positive divisor Dafny's division floors
    var mins := JsRem(minutes, 60);
    if hours > 0 then IntToString(hours) + "h " + IntToString(mins) + "m"
    else IntToString(mins) + "m"
  }

  /** The two numbers shown for an hour or more add back to the input:
      60 * h + m == minutes with 0 <= m < 60, and h, m read back from their digits. */
  lemma {:induction false} DurationParts(minutes: int)
    requires minutes >= 60
    ensures var h := minutes / 60; var m := minutes % 60;
      && h >= 1 && 0 <= m < 60 && 60 * h + m == minutes
      && FormatDuration(minutes) == NatToString(h) + "h " + NatToString(m) + "m"
      && DigitsValue(NatToString(h)) == h && DigitsValue(NatToString(m)) == m
  {
    NatToStringRoundTrip(minutes / 60);
    NatToStringRoundTrip(minutes % 60);
  }

  /** A negative duration prints only its sign-carrying remainder: -65 shows as "-5m". */
  lemma NegativeDuration()
    ensures FormatDuration(-65) == "-5m"
  {
    assert -65 / 60 == -2;
    assert JsRem(-65, 60) == -5;
    assert NatToString(5) == "5";
  }

  /** word.charAt(0): the first character, "" for an empty word. */
  function FirstChar(word: string): string {
    if word == [] then "" else [word[0]]
  }

  /** The first characters of the words, in order. */
  function WordStarts(words: seq<string>): (r: string)
    ensures |r| <= |words|
  {
    if words == [] then "" else FirstChar(words[0]) + WordStarts(words[1..])
  }

  /** getInitials(name): first characters of the space-separated words,
      upper-cased, at most two. */
  function Initials(name: string): (r: string)
    ensures |r| <= 2
    ensures var all := Upper(WordStarts(Split(name, ' ')));
      r == all[..if |all| < 2 then |all| else 2]
  {
    var all := Upper(WordStarts(Split(name, ' ')));
    if |all| <= 2 then all else all[..2]
  }

  /** The initials are letters from the name itself: each is the upper-cased
      first character of a word, in word order. */
  lemma {:induction false} WordStartsFromWords(words: seq<string>, i: nat)
    requires i < |WordStarts(words)|
    ensures exists k :: 0 <= k < |words| && words[k] != [] && WordStarts(words)[i] == words[k][0]
    decreases |words|
  {
    if words[0] == [] {
      assert WordStarts(words) == WordStarts(words[1..]);
      WordStartsFromWords(words[1..], i);
      var k :| 0 <= k < |words[1..]| && words[1..][k] != [] && WordStarts(words[1..])[i] == words[1..][k][0];
      assert words[k + 1] == words[1..][k];
    } else if i == 0 {
      assert WordStarts(words)[0] == words[0][0];
    } else {
      assert WordStarts(words) == [words[0][0]] + WordStarts(words[1..]);
      WordStartsFromWords(words[1..], i - 1);
      var k :| 0 <= k < |words[1..]| && words[1..][k] != [] && WordStarts(words[1..])[i - 1] == words[1..][k][0];
      assert words[k + 1] == words[1..][k];
    }
  }

  /** Every initial is the upper-cased first character of one of the
      space-separated words of the name. */
  lemma InitialsFromWords(name: string, i: nat)
    requires i < |Initials(name)|
    ensures exists k ::
      0 <= k < |Split(name, ' ')| && Split(name, ' ')[k] != [] && Initials(name)[i] == UpperChar(Split(name, ' ')[k][0])
  {
    var words := Split(name, ' ');
    WordStartsFromWords(words, i);
    var k :| 0 <= k < |words| && words[k] != [] && WordStarts(words)[i] == words[k][0];
    assert Initials(name)[i] == Upper(WordStarts(words))[i] == UpperChar(words[k][0]);
  }

  /** Two plain words give their two initials. */
  lemma TwoWordInitials(first: string, last: string)
    requires first != "" && last != "" && ' ' !in first && ' ' !in last
    ensures Initials(first + " " + last) == [UpperChar(first[0]), UpperChar(last[0])]
  {
    SplitAppend(first, last, ' ');
    SplitNoSep(last, ' ');
    assert first + " " + last == first + [' '] + last;
    assert Split(first + " " + last, ' ') == [first, last];
    assert [first, last][1..] == [last];
    assert WordStarts([last]) == [last[0]];
    assert WordStarts([first, last]) == [first[0], last[0]];
  }

  /** A leading space makes an empty first word, which contributes nothing. */
  lemma LeadingSpaceSkipped(name: string)
    ensures Initials(" " + name) == Initials(name)
  {
    assert (" " + name)[1..] == name;
    assert Split(" " + name, ' ') == [""] + Split(name, ' ');
    assert ([""] + Split(name, ' '))[1..] == Split(name, ' ');
  }

  /** text.slice(0, end) for a non-negative start: a negative end counts from the back. */
  function Slice(text: string, end: int): (r: string)
    ensures |r| <= |text|
    ensures r == text[..|r|]
    ensures 0 <= end <= |text| ==> |r| == end
    ensures end < 0 ==> |r| == if |text| + end > 0 then |text| + end else 0
  {
    if end >= |text| then text
    else if end >= 0 then text[..end]
    else if |text| + end > 0 then text[..|text| + end]
    else ""
  }

  /** truncateText(text, maxLength). */
  function TruncateText(text: string, maxLength: int): (r: string)
    ensures |text| <= maxLength ==> r == text
    ensures 0 <= maxLength < |text| ==> r == text[..maxLength] + "..." && |r| == maxLength + 3
    ensures |text| > maxLength ==> 3 <= |r| <= |text| + 3 && r[..|r| - 3] == text[..|r| - 3] && r[|r| - 3..] == "..."
  {
    if |text| <= maxLength then text else Slice(text, maxLength) + "..."
  }

  /** utils.jsx's default length. */
  const DefaultMaxLength: int := 100

  /** With a non-negative max the result is at most max + 3 long, and a
      result no longer than max is the text itself. */
  lemma TruncatedFits(text: string, maxLength: nat)
    ensures |TruncateText(text, maxLength)| <= maxLength + 3
    ensures |TruncateText(text, maxLength)| <= maxLength ==> TruncateText(text, maxLength) == text
  {
  }

  /** A negative maximum drops that many characters from the end before the "...". */
  lemma NegativeMaxDropsTail(text: string, k: int)
    requires 0 < k < |text|
    ensures TruncateText(text, -k) == text[..|text| - k] + "..."
  {
  }

  /** The 100-character default: a 101-character text keeps 100 characters. */
  lemma DefaultTruncation(text: string)
    requires |text| == DefaultMaxLength + 1
    ensures TruncateText(text, DefaultMaxLength) == text[..100] + "..."
    ensures |TruncateText(text, DefaultMaxLength)| == 103
  {
  }
}
