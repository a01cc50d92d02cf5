/** BrailleBack's string helpers (utils/StringUtils.java): appending words to
    a buffer with a space or a '#' between them, where no separator follows
    text that already ends in a space character. Java strings are sequences
    of UTF-16 code units. */
module StringUtils {
  import opened Common

  /** A UTF-16 code unit. */
  type JChar = c: int | 0 <= c < 0x1_0000

  type JString = seq<JChar>

  const Space: JChar := 0x20
  const Separator: JChar := 0x23

  predicate IsHighSurrogate(c: int) { 0xD800 <= c <= 0xDBFF }

  predicate IsLowSurrogate(c: int) { 0xDC00 <= c <= 0xDFFF }

  /** Character.codePointBefore: the code point that ends just before
      `index`, a surrogate pair counting as one. */
  function CodePointBefore(s: JString, index: nat): (r: int)
    requires 1 <= index <= |s|
    ensures 0 <= r <= 0x10FFFF
    ensures r < 0x10000 ==> r == s[index - 1]
    ensures r >= 0x10000 <==> index >= 2 && IsHighSurrogate(s[index - 2]) && IsLowSurrogate(s[index - 1])
  {
    if index >= 2 && IsHighSurrogate(s[index - 2]) && IsLowSurrogate(s[index - 1]) then
      (s[index - 2] as int - 0xD800) * 0x400 + (s[index - 1] as int - 0xDC00) + 0x10000
    else s[index - 1]
  }

  /** Character.isSpaceChar: the code points of the Unicode categories Zs,
      Zl and Zp (Unicode 6, where U+180E is still a space separator). */
  predicate IsSpaceChar(cp: int)
  {
    || cp == 0x20 || cp == 0xA0 || cp == 0x1680 || cp == 0x180E
    || (0x2000 <= cp <= 0x200A)
    || cp == 0x2028 || cp == 0x2029 || cp == 0x202F || cp == 0x205F || cp == 0x3000
  }

  /** endsWithSpace: the last code point is a space character. */
  predicate EndsWithSpace(s: JString)
  {
    |s| > 0 && IsSpaceChar(CodePointBefore(s, |s|))
  }

  /** No space character lies outside the Basic Multilingual Plane or among
      the surrogates, so only the last code unit matters. */
  lemma EndsWithSpaceLastUnit(s: JString)
    ensures EndsWithSpace(s) <==> |s| > 0 && IsSpaceChar(s[|s| - 1])
  {
    if |s| > 0 {
      var cp := CodePointBefore(s, |s|);
      if cp >= 0x10000 {
        assert !IsSpaceChar(cp);
        assert IsLowSurrogate(s[|s| - 1]);
      }
    }
  }

  /** One argument of the loop: a null argument is skipped; otherwise the
      separator goes in when the buffer is not empty and does not end with a
      space, and then the argument's text. */
  function AppendOne(buffer: JString, arg: Option<JString>, separator: JChar): JString
  {
    match arg
    case None => buffer
    case Some(text) =>
      (if |buffer| > 0 && !EndsWithSpace(buffer) then buffer + [separator] else buffer) + text
  }

  /** The loop over all arguments, in order. */
  function AppendAll(buffer: JString, args: seq<Option<JString>>, separator: JChar): (r: JString)
    ensures buffer <= r
    decreases |args|
  {
    if |args| == 0 then buffer
    else AppendAll(AppendOne(buffer, args[0], separator), args[1..], separator)
  }

  /** appendWithSpaces, for an Editable and for a StringBuilder alike: a
      non-null argument is appended as its text. */
  function AppendWithSpaces(buffer: JString, args: seq<Option<JString>>): (r: JString)
    ensures buffer <= r
    ensures r == Spliced(buffer, Present(args), Space)
  {
    AppendAllSpliced(buffer, args, Space);
    AppendAll(buffer, args, Space)
  }

  /** appendWithSeparators: the same with '#' between the words. */
  function AppendWithSeparators(buffer: JString, args: seq<Option<JString>>): (r: JString)
    ensures buffer <= r
    ensures r == Spliced(buffer, Present(args), Separator)
  {
    AppendAllSpliced(buffer, args, Separator);
    AppendAll(buffer, args, Separator)
  }

  /** The texts of the non-null arguments, in order. */
  function Present(args: seq<Option<JString>>): (r: seq<JString>)
    ensures |r| <= |args|
  {
    if |args| == 0 then []
    else (if args[0].Some? then [args[0].value] else []) + Present(args[1..])
  }

  /** The buffer followed by each word in turn, the last word preceded by the
      separator exactly when the text before it is not empty and does not
      end in a space character. */
  function Spliced(buffer: JString, words: seq<JString>, separator: JChar): JString
  {
    if |words| == 0 then buffer
    else
      var before := Spliced(buffer, words[..|words| - 1], separator);
      before + (if |before| > 0 && !EndsWithSpace(before) then [separator] else []) + words[|words| - 1]
  }

  /** The loop's last argument is applied to what the earlier ones left. */
  lemma {:induction false} AppendAllSnoc(buffer: JString, args: seq<Option<JString>>, arg: Option<JString>, separator: JChar)
    ensures AppendAll(buffer, args + [arg], separator) == AppendOne(AppendAll(buffer, args, separator), arg, separator)
    decreases |args|
  {
    if |args| == 0 {
      assert (args + [arg])[1..] == [];
    } else {
      assert (args + [arg])[1..] == args[1..] + [arg];
      AppendAllSnoc(AppendOne(buffer, args[0], separator), args[1..], arg, separator);
    }
  }

  lemma {:induction false} PresentSnoc(args: seq<Option<JString>>, arg: Option<JString>)
    ensures Present(args + [arg]) == Present(args) + (if arg.Some? then [arg.value] else [])
    decreases |args|
  {
    var last: seq<JString> := if arg.Some? then [arg.value] else [];
    if |args| == 0 {
      assert (args + [arg])[1..] == [];
      assert Present([arg]) == last + Present([]);
    } else {
      var first: seq<JString> := if args[0].Some? then [args[0].value] else [];
      assert (args + [arg])[0] == args[0];
      assert (args + [arg])[1..] == args[1..] + [arg];
      assert Present(args + [arg]) == first + Present(args[1..] + [arg]);
      PresentSnoc(args[1..], arg);
      assert Present(args) == first + Present(args[1..]);
    }
  }

  /** Whatever the arguments (empty words, words ending in a space, nulls),
      the loop appends the non-null words as Spliced describes. */
  lemma {:induction false} AppendAllSpliced(buffer: JString, args: seq<Option<JString>>, separator: JChar)
    ensures AppendAll(buffer, args, separator) == Spliced(buffer, Present(args), separator)
    decreases |args|
  {
    if |args| > 0 {
      var init, last := args[..|args| - 1], args[|args| - 1];
      assert args == init + [last];
      AppendAllSnoc(buffer, init, last, separator);
      PresentSnoc(init, last);
      AppendAllSpliced(buffer, init, separator);
      var mid := AppendAll(buffer, init, separator);
      assert AppendAll(buffer, args, separator) == AppendOne(mid, last, separator);
      if last.Some? {
        SplicedSnoc(buffer, Present(init), last.value, separator);
        assert Present(args) == Present(init) + [last.value];
      } else {
        assert Present(args) == Present(init);
      }
    }
  }

  /** Spliced, one word at a time, is the loop's step. */
  lemma SplicedSnoc(buffer: JString, words: seq<JString>, word: JString, separator: JChar)
    ensures Spliced(buffer, words + [word], separator) == AppendOne(Spliced(buffer, words, separator), Some(word), separator)
  {
    assert (words + [word])[..|words|] == words;
  }

  /** Two calls on the same buffer append what one call with both argument
      lists does. */
  lemma {:induction false} AppendTwice(buffer: JString, first: seq<Option<JString>>, second: seq<Option<JString>>, separator: JChar)
    ensures AppendAll(AppendAll(buffer, first, separator), second, separator) == AppendAll(buffer, first + second, separator)
    decreases |first|
  {
    if |first| > 0 {
      assert (first + second)[1..] == first[1..] + second;
      AppendTwice(AppendOne(buffer, first[0], separator), first[1..], second, separator);
    } else {
      assert first + second == second;
    }
  }

  /** Words that are not empty and do not end in a space character. */
  predicate PlainWords(words: seq<JString>)
  {
    forall i :: 0 <= i < |words| ==> |words[i]| > 0 && !EndsWithSpace(words[i])
  }

  lemma PlainWordsTail(words: seq<JString>)
    requires |words| > 0 && PlainWords(words)
    ensures PlainWords(words[1..])
  {
    assert forall i :: 0 <= i < |words| - 1 ==> words[1..][i] == words[i + 1];
  }

  /** Appending a word after a separator keeps a buffer that does not end
      in a space. */
  lemma SeparatedWordEnds(buffer: JString, separator: JChar, word: JString)
    requires |word| > 0 && !EndsWithSpace(word)
    ensures !EndsWithSpace(buffer + [separator] + word) && !EndsWithSpace(buffer + word)
  {
    var s := buffer + [separator] + word;
    var t := buffer + word;
    EndsWithSpaceLastUnit(word);
    EndsWithSpaceLastUnit(s);
    EndsWithSpaceLastUnit(t);
    assert s[|s| - 1] == word[|word| - 1];
    assert t[|t| - 1] == word[|word| - 1];
  }

  /** The words after a non-empty first one. */
  lemma PresentFirst(args: seq<Option<JString>>)
    requires |args| > 0 && args[0].Some?
    ensures |Present(args)| > 0 && Present(args)[0] == args[0].value
    ensures Present(args)[1..] == Present(args[1..])
  {
    assert Present(args) == [args[0].value] + Present(args[1..]);
  }

  /** Joining behind a first word. */
  lemma JoinFirst<T>(words: seq<seq<T>>, d: T)
    requires |words| > 0
    ensures JoinWith(words, d) ==
      words[0] + (if |words| == 1 then [] else [d] + JoinWith(words[1..], d))
  {
  }

  lemma Regroup<T>(a: seq<T>, x: T, b: seq<T>, c: seq<T>)
    ensures a + [x] + b + c == a + ([x] + (b + c))
  {
  }

  /** After a buffer that is not empty and does not end in a space, plain
      words each get exactly one separator in front. */
  lemma {:induction false} AppendAfterWord(buffer: JString, args: seq<Option<JString>>, separator: JChar)
    requires |buffer| > 0 && !EndsWithSpace(buffer)
    requires PlainWords(Present(args))
    ensures AppendAll(buffer, args, separator) ==
      buffer + (if |Present(args)| == 0 then [] else [separator] + JoinWith(Present(args), separator))
    decreases |args|
  {
    if |args| > 0 {
      if args[0].Some? {
        var words := Present(args);
        var w := args[0].value;
        PresentFirst(args);
        PlainWordsTail(words);
        SeparatedWordEnds(buffer, separator, w);
        var next := buffer + [separator] + w;
        assert AppendOne(buffer, args[0], separator) == next;
        AppendAfterWord(next, args[1..], separator);
        JoinFirst(words, separator);
        var tail := if |words| == 1 then [] else [separator] + JoinWith(words[1..], separator);
        assert AppendAll(buffer, args, separator) == next + tail;
        assert JoinWith(words, separator) == w + tail;
        Regroup(buffer, separator, w, tail);
      } else {
        assert Present(args) == Present(args[1..]);
        AppendAfterWord(buffer, args[1..], separator);
      }
    }
  }

  /** Into an empty buffer, plain words come out joined by the separator,
      with the null arguments left out. */
  lemma {:induction false} AppendJoins(args: seq<Option<JString>>, separator: JChar)
    requires PlainWords(Present(args))
    ensures AppendAll([], args, separator) == JoinWith(Present(args), separator)
    decreases |args|
  {
    if |args| > 0 {
      var words := Present(args);
      if args[0].Some? {
        var w := args[0].value;
        PresentFirst(args);
        PlainWordsTail(words);
        JoinFirst(words, separator);
        assert AppendOne([], args[0], separator) == w;
        AppendAfterWord(w, args[1..], separator);
      } else {
        assert words == Present(args[1..]);
        AppendJoins(args[1..], separator);
      }
    }
  }

  /** appendWithSpaces into an empty buffer is the words joined by single
      spaces. */
  lemma SpacesJoin(args: seq<Option<JString>>)
    requires PlainWords(Present(args))
    ensures AppendWithSpaces([], args) == JoinWith(Present(args), Space)
  {
    AppendJoins(args, Space);
  }

  /** appendWithSeparators into an empty buffer is the words joined by '#'. */
  lemma SeparatorsJoin(args: seq<Option<JString>>)
    requires PlainWords(Present(args))
    ensures AppendWithSeparators([], args) == JoinWith(Present(args), Separator)
  {
    AppendJoins(args, Separator);
  }

  /** No separator after a word that ends in a space: "a " and "b" give
      "a b", not "a #b". */
  lemma SeparatorSkippedAfterSpace()
    ensures AppendWithSeparators([], [Some([0x61, 0x20]), Some([0x62])]) == [0x61, 0x20, 0x62]
  {
    var args: seq<Option<JString>> := [Some([0x61, 0x20]), Some([0x62])];
    assert AppendOne([], args[0], Separator) == [0x61, 0x20];
    EndsWithSpaceLastUnit([0x61, 0x20]);
    assert AppendOne([0x61, 0x20], args[1], Separator) == [0x61, 0x20, 0x62];
    assert args[1..][1..] == [];
  }
}
