/**
  Display-width helpers used to draw the console banner: a character is an
  emoji when its code point falls in one of six ranges, and an emoji takes two
  terminal columns while every other character takes one.
 */
module Formatting {

  /** The six ranges of `is_emoji`, tried in the order they are written. The
      ensures give an equivalent three-range form: the arm
      0x24C2..=0x1F251 swallows 0x2702..=0x27B0 and 0x1F1E0..=0x1F1FF, and the
      ranges 0x1F300..=0x1F5FF and 0x1F600..=0x1F64F are adjacent. */
  function IsEmoji(c: char): (r: bool)
    ensures r <==> (0x24C2 <= c as int <= 0x1F251
                    || 0x1F300 <= c as int <= 0x1F64F
                    || 0x1F680 <= c as int <= 0x1F6FF)
    ensures c as int < 0x80 ==> !r
  {
    var cp := c as int;
    || 0x1F600 <= cp <= 0x1F64F
    || 0x1F300 <= cp <= 0x1F5FF
    || 0x1F680 <= cp <= 0x1F6FF
    || 0x1F1E0 <= cp <= 0x1F1FF
    || 0x2702 <= cp <= 0x27B0
    || 0x24C2 <= cp <= 0x1F251
  }

  /** Columns taken by one character. */
  function Width(c: char): nat
  {
    if IsEmoji(c) then 2 else 1
  }

  /** The left fold `s.chars().fold(acc, count)` of `on_screen_len`. */
  function FoldWidth(acc: nat, s: string): (r: nat)
    ensures acc + |s| <= r <= acc + 2 * |s|
    decreases |s|
  {
    if s == [] then acc else FoldWidth(acc + Width(s[0]), s[1..])
  }

  /** Reference definition: the sum over the characters of their widths. */
  function SumWidths(s: string): nat
    decreases |s|
  {
    if s == [] then 0 else Width(s[0]) + SumWidths(s[1..])
  }

  /** Number of emoji in a string. */
  function EmojiCount(s: string): nat
    decreases |s|
  {
    if s == [] then 0 else (if IsEmoji(s[0]) then 1 else 0) + EmojiCount(s[1..])
  }

  lemma {:induction false} FoldIsSum(acc: nat, s: string)
    ensures FoldWidth(acc, s) == acc + SumWidths(s)
    decreases |s|
  {
    if s != [] {
      FoldIsSum(acc + Width(s[0]), s[1..]);
    }
  }

  /** `on_screen_len`: the number of terminal columns the string occupies. */
  function OnScreenLen(s: string): (n: nat)
    ensures n == SumWidths(s)
    ensures n == |s| + EmojiCount(s)
  {
    FoldIsSum(0, s);
    SumIsLengthPlusEmoji(s);
    FoldWidth(0, s)
  }

  lemma {:induction false} SumIsLengthPlusEmoji(s: string)
    ensures SumWidths(s) == |s| + EmojiCount(s)
    decreases |s|
  {
    if s != [] {
      SumIsLengthPlusEmoji(s[1..]);
    }
  }

  lemma {:induction false} EmojiCountBounds(s: string)
    ensures EmojiCount(s) <= |s|
    ensures EmojiCount(s) == 0 <==> forall i :: 0 <= i < |s| ==> !IsEmoji(s[i])
    ensures EmojiCount(s) == |s| <==> forall i :: 0 <= i < |s| ==> IsEmoji(s[i])
    decreases |s|
  {
    if s != [] {
      EmojiCountBounds(s[1..]);
      assert forall i :: 1 <= i < |s| ==> s[i] == s[1..][i - 1];
    }
  }

  lemma {:induction false} SumWidthsAppend(s: string, t: string)
    ensures SumWidths(s + t) == SumWidths(s) + SumWidths(t)
    decreases |s|
  {
    if s == [] {
      assert s + t == t;
    } else {
      assert (s + t)[1..] == s[1..] + t;
      SumWidthsAppend(s[1..], t);
    }
  }

  lemma OnScreenLenEmpty()
    ensures OnScreenLen("") == 0
  {
  }

  /** The width of a concatenation is the sum of the widths. */
  lemma OnScreenLenAppend(s: string, t: string)
    ensures OnScreenLen(s + t) == OnScreenLen(s) + OnScreenLen(t)
  {
    SumWidthsAppend(s, t);
  }

  /** A string takes between one and two columns per character: exactly one
      per character iff it holds no emoji, exactly two iff it holds only emoji. */
  lemma OnScreenLenBounds(s: string)
    ensures |s| <= OnScreenLen(s) <= 2 * |s|
    ensures OnScreenLen(s) == |s| <==> forall i :: 0 <= i < |s| ==> !IsEmoji(s[i])
    ensures OnScreenLen(s) == 2 * |s| <==> forall i :: 0 <= i < |s| ==> IsEmoji(s[i])
  {
    EmojiCountBounds(s);
  }

  /** The four symbols of the demo banner are all emoji. */
  lemma BannerSymbolsAreEmoji()
    ensures IsEmoji('\U{2728}') && IsEmoji('\U{2705}') && IsEmoji('\U{1F6A7}') && IsEmoji('\U{274C}')
  {
  }

  /** The widths the example file's unit tests expect. */
  lemma ExampleWidthSymbols()
    ensures OnScreenLen("\U{2728}\U{2705}\U{1F6A7}\U{274C}") == 8
  {
  }

  lemma ExampleWidthOneSpace()
    ensures OnScreenLen("\U{2728} \U{2705}\U{1F6A7}\U{274C}") == 9
  {
  }

  lemma ExampleWidthTwoSpaces()
    ensures OnScreenLen("\U{2728} \U{2705} \U{1F6A7}\U{274C}") == 10
  {
  }

  lemma ExampleWidthThreeSpaces()
    ensures OnScreenLen("\U{2728} \U{2705} \U{1F6A7} \U{274C}") == 11
  {
  }

  lemma ExampleWidthTrailingSpace()
    ensures OnScreenLen("\U{2728} \U{2705} \U{1F6A7} \U{274C} ") == 12
  {
  }

  /** A string of ASCII characters takes one column per character. */
  lemma OnScreenLenAscii(s: string)
    requires forall i :: 0 <= i < |s| ==> s[i] as int < 0x80
    ensures OnScreenLen(s) == |s|
  {
    OnScreenLenBounds(s);
  }

  /** A banner of ASCII text between two emoji takes four columns more than
      the text. */
  lemma BannerWidth(open: char, text: string, close: char)
    requires IsEmoji(open) && IsEmoji(close)
    requires forall i :: 0 <= i < |text| ==> text[i] as int < 0x80
    ensures OnScreenLen([open] + text + [close]) == |text| + 4
  {
    OnScreenLenAscii(text);
    assert SumWidths([open]) == 2 && SumWidths([close]) == 2 by {
      assert [open][1..] == [] && [close][1..] == [];
    }
    OnScreenLenAppend([open], text);
    OnScreenLenAppend([open] + text, [close]);
  }

  /** The success banner of the demo program is 27 columns wide. */
  lemma ExampleWidthSuccess()
    ensures OnScreenLen(['\U{2728}'] + " It works! Answer is 6 " + ['\U{2705}']) == 27
  {
    BannerWidth('\U{2728}', " It works! Answer is 6 ", '\U{2705}');
  }

  /** The failure banner of the demo program is 43 columns wide. */
  lemma ExampleWidthFailure()
    ensures OnScreenLen(['\U{1F6A7}'] + " Oh, shieeet, answer is 6 instead of 5 " + ['\U{274C}']) == 43
  {
    BannerWidth('\U{1F6A7}', " Oh, shieeet, answer is 6 instead of 5 ", '\U{274C}');
  }
}
