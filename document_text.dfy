/** The character-level and token-level stages of the single-document
    pipeline in exercise_02/preprocessing.py: weird-character replacement,
    HTML tag removal that spares the heart symbol `<3`, the character map,
    the dash rule and whitespace tokenisation with quote stripping. */
module DocumentText {
  import opened Text
  import opened TokenLists
  import opened Scanners

  // ---------------------------------------------------------------------
  // clean_text_from_weird_chars

  /** `CHARACTERS_TO_REMOVE_DEFAULT`: stray C1 controls, the soft hyphen,
      two C0 controls and a private-use bullet. */
  const CharactersToRemoveDefault: seq<string> := [
    "\U{96}", "\U{91}", "\U{97}", "\U{AD}", "\U{84}", "\U{8}", "\U{80}",
    "\U{8E}", "\U{9E}", "\U{95}", "\U{9A}", "\U{10}", "\U{8D}", "\U{F0B7}"
  ]

  /** The text after `text = text.replace(w, replaceWith)` for each `w` of
      `weirdChars` in turn. */
  function WeirdCharsReplaced(text: string, weirdChars: seq<string>, replaceWith: string): string
    decreases |weirdChars|
  {
    if weirdChars == [] then text
    else WeirdCharsReplaced(Replace(text, weirdChars[0], replaceWith), weirdChars[1..], replaceWith)
  }

  method CleanTextFromWeirdChars(text: string, weirdChars: seq<string>, replaceWith: string)
    returns (r: string)
    ensures r == WeirdCharsReplaced(text, weirdChars, replaceWith)
  {
    r := text;
    var i := 0;
    while i < |weirdChars|
      invariant 0 <= i <= |weirdChars|
      invariant WeirdCharsReplaced(r, weirdChars[i..], replaceWith)
                == WeirdCharsReplaced(text, weirdChars, replaceWith)
    {
      assert weirdChars[i..][1..] == weirdChars[i + 1..];
      r := Replace(r, weirdChars[i], replaceWith);
      i := i + 1;
    }
  }

  /** Every entry is one character long. */
  predicate SingleChars(ws: seq<string>) {
    forall i :: 0 <= i < |ws| ==> |ws[i]| == 1
  }

  /** When every weird character is a single character and the filler is a
      single character that is not itself listed, the replacement acts
      position by position: a listed character becomes the filler, any
      other character is kept. */
  lemma {:induction false} WeirdCharsPointwise(text: string, ws: seq<string>, filler: char)
    requires SingleChars(ws) && [filler] !in ws
    ensures |WeirdCharsReplaced(text, ws, [filler])| == |text|
    ensures forall i :: 0 <= i < |text| ==>
      WeirdCharsReplaced(text, ws, [filler])[i] == (if [text[i]] in ws then filler else text[i])
    decreases |ws|
  {
    if ws != [] {
      var w := ws[0][0];
      assert ws[0] == [w];
      var t := Replace(text, [w], [filler]);
      ReplaceOneChar(text, w, filler);
      WeirdCharsPointwise(t, ws[1..], filler);
      forall i | 0 <= i < |text|
        ensures WeirdCharsReplaced(text, ws, [filler])[i] == (if [text[i]] in ws then filler else text[i])
      {
        assert [text[i]] in ws <==> [text[i]] == ws[0] || [text[i]] in ws[1..];
        assert [text[i]] == ws[0] <==> text[i] == w;
      }
    }
  }

  lemma {:induction false} DefaultWeirdCharsSingle()
    ensures SingleChars(CharactersToRemoveDefault)
    ensures [' '] !in CharactersToRemoveDefault
  {
    var ws := CharactersToRemoveDefault;
    forall i | 0 <= i < |ws|
      ensures |ws[i]| == 1 && ws[i][0] != ' '
    {
    }
    forall w | w in ws
      ensures w != [' ']
    {
      var i :| 0 <= i < |ws| && ws[i] == w;
      assert ws[i][0] != ' ';
    }
  }

  /** With the default list and the default filler `" "`, the text keeps its
      length, every listed character becomes a space, every other character
      is kept, so none of the listed characters remains. */
  lemma {:induction false} WeirdCharsDefault(text: string)
    ensures |WeirdCharsReplaced(text, CharactersToRemoveDefault, " ")| == |text|
    ensures forall i :: 0 <= i < |text| ==>
      WeirdCharsReplaced(text, CharactersToRemoveDefault, " ")[i]
      == (if [text[i]] in CharactersToRemoveDefault then ' ' else text[i])
    ensures forall i :: 0 <= i < |text| ==>
      [WeirdCharsReplaced(text, CharactersToRemoveDefault, " ")[i]] !in CharactersToRemoveDefault
  {
    DefaultWeirdCharsSingle();
    WeirdCharsPointwise(text, CharactersToRemoveDefault, ' ');
  }

  // ---------------------------------------------------------------------
  // clean_html_tags

  /** The heart symbol that survives tag removal. */
  const Heart: string := "<3"

  /** The marker that stands in for each heart while tags are removed. */
  const HeartPlaceholder: string := "HEART_SYMBOL_PLACEHOLDER_XYZ"

  /** Hearts are hidden behind the placeholder, every match of `<[^>]*>` is
      removed, and the placeholders are turned back into hearts. */
  function CleanHtmlTags(text: string): string
  {
    Replace(StripTags(Replace(text, Heart, HeartPlaceholder), 0), HeartPlaceholder, Heart)
  }

  /** A pattern holding a character that the text lacks does not occur. */
  lemma {:induction false} MissingCharNotContained(s: string, pat: string, c: char)
    requires c in pat && c !in s
    ensures !Contains(s, pat)
    decreases |s|
  {
    if |pat| <= |s| {
      var k :| 0 <= k < |pat| && pat[k] == c;
      assert s[..|pat|][k] != pat[k];
      if s != [] {
        MissingCharNotContained(s[1..], pat, c);
      }
    }
  }

  /** A character that the pattern lacks survives replacement. */
  lemma {:induction false} CharSurvivesReplace(s: string, pat: string, rep: string, c: char)
    requires pat != [] && c !in pat && c in s
    ensures c in Replace(s, pat, rep)
    decreases |s|
  {
    if |s| >= |pat| {
      if s[..|pat|] == pat {
        assert c in s[|pat|..] by {
          var k :| 0 <= k < |s| && s[k] == c;
          assert forall m :: 0 <= m < |pat| ==> s[m] == pat[m] && pat[m] in pat;
          assert s[|pat|..][k - |pat|] == c;
        }
        CharSurvivesReplace(s[|pat|..], pat, rep, c);
      } else if s[0] != c {
        assert c in s[1..] by {
          var k :| 0 <= k < |s| && s[k] == c;
          assert s[1..][k - 1] == c;
        }
        CharSurvivesReplace(s[1..], pat, rep, c);
      }
    }
  }

  lemma {:induction false} PlaceholderFacts()
    ensures BorderFree(Heart) && BorderFree(HeartPlaceholder)
    ensures '<' !in HeartPlaceholder && '>' !in HeartPlaceholder
    ensures '>' !in Heart && '3' in Heart && 'Z' in HeartPlaceholder
  {
    LastCharUniqueBorderFree(Heart);
    LastCharUniqueBorderFree(HeartPlaceholder);
  }

  /** Every `<` of `s` has a `>` somewhere after it, so no tag that starts
      in `s` can reach past its end. */
  predicate TagsClosed(s: string) {
    forall i :: 0 <= i < |s| && s[i] == '<' ==> '>' in s[i + 1..]
  }

  lemma {:induction false} FirstGtPrefix(t: string, z: string)
    requires FirstGt(t).Some?
    ensures FirstGt(t + z) == FirstGt(t)
    decreases |t|
  {
    if t[0] != '>' {
      assert (t + z)[1..] == t[1..] + z;
      FirstGtPrefix(t[1..], z);
    }
  }

  lemma {:induction false} TagsClosedSuffix(s: string, k: nat)
    requires TagsClosed(s) && k <= |s|
    ensures TagsClosed(s[k..])
  {
    forall i | 0 <= i < |s[k..]| && s[k..][i] == '<'
      ensures '>' in s[k..][i + 1..]
    {
      assert s[k..][i + 1..] == s[k + i + 1..];
    }
  }

  /** Scanning a closed prefix never consumes text after it. */
  lemma {:induction false} StripTagsClosedPrefix(x: string, z: string, minInner: nat)
    requires TagsClosed(x)
    ensures StripTags(x + z, minInner) == StripTags(x, minInner) + StripTags(z, minInner)
    decreases |x|, 1
  {
    if x == [] {
      assert x + z == z;
    } else if x[0] == '<' && FirstGt(x[1..]).Some? && FirstGt(x[1..]).value >= minInner {
      StripTagsClosedPrefixAtTag(x, z, minInner);
    } else {
      StripTagsClosedPrefixCopy(x, z, minInner);
    }
  }

  lemma {:induction false} StripTagsClosedPrefixAtTag(x: string, z: string, minInner: nat)
    requires TagsClosed(x)
    requires x != [] && x[0] == '<' && FirstGt(x[1..]).Some? && FirstGt(x[1..]).value >= minInner
    ensures StripTags(x + z, minInner) == StripTags(x, minInner) + StripTags(z, minInner)
    decreases |x|, 0
  {
    var s := x + z;
    var j := FirstGt(x[1..]).value;
    assert s[0] == x[0];
    assert s[1..] == x[1..] + z;
    FirstGtPrefix(x[1..], z);
    TagsClosedSuffix(x, j + 2);
    assert s[j + 2..] == x[j + 2..] + z;
    StripTagsAtTag(x, j, minInner);
    StripTagsAtTag(s, j, minInner);
    StripTagsClosedPrefix(x[j + 2..], z, minInner);
  }

  lemma {:induction false} StripTagsClosedPrefixCopy(x: string, z: string, minInner: nat)
    requires TagsClosed(x)
    requires x != [] && !(x[0] == '<' && FirstGt(x[1..]).Some? && FirstGt(x[1..]).value >= minInner)
    ensures StripTags(x + z, minInner) == StripTags(x, minInner) + StripTags(z, minInner)
    decreases |x|, 0
  {
    var s := x + z;
    TagsClosedSuffix(x, 1);
    CopyGuardExtends(x, z, minInner);
    StripTagsCopiesFirst(x, minInner);
    StripTagsCopiesFirst(s, minInner);
    StripTagsClosedPrefix(x[1..], z, minInner);
    PrefixJoin([x[0]], StripTags(x[1..], minInner), StripTags(x[1..] + z, minInner), StripTags(z, minInner),
               StripTags(s, minInner), StripTags(x, minInner));
  }

  /** A closed prefix that the scan copies a character of is copied the
      same way whatever follows it. */
  lemma {:induction false} CopyGuardExtends(x: string, z: string, minInner: nat)
    requires TagsClosed(x)
    requires x != [] && !(x[0] == '<' && FirstGt(x[1..]).Some? && FirstGt(x[1..]).value >= minInner)
    ensures (x + z)[0] == x[0] && (x + z)[1..] == x[1..] + z
    ensures !((x + z)[0] == '<' && FirstGt((x + z)[1..]).Some? && FirstGt((x + z)[1..]).value >= minInner)
  {
    var s := x + z;
    assert s[0] == x[0];
    assert s[1..] == x[1..] + z;
    if x[0] == '<' {
      assert '>' in x[1..];
      var k :| 0 <= k < |x[1..]| && x[1..][k] == '>';
      assert FirstGt(x[1..]).Some?;
      FirstGtPrefix(x[1..], z);
    }
  }

  lemma {:induction false} TagsClosedPrepend(p: string, y: string)
    requires '<' !in p && TagsClosed(y)
    ensures TagsClosed(p + y)
  {
    forall i | 0 <= i < |p + y| && (p + y)[i] == '<'
      ensures '>' in (p + y)[i + 1..]
    {
      assert i >= |p|;
      assert (p + y)[i + 1..] == y[i - |p| + 1..];
    }
  }

  /** Hiding the hearts keeps every tag closed. */
  lemma {:induction false} PlaceholderKeepsTagsClosed(s: string)
    requires TagsClosed(s)
    ensures TagsClosed(Replace(s, Heart, HeartPlaceholder))
    decreases |s|
  {
    PlaceholderFacts();
    if |s| >= |Heart| {
      if s[..|Heart|] == Heart {
        TagsClosedSuffix(s, |Heart|);
        PlaceholderKeepsTagsClosed(s[|Heart|..]);
        TagsClosedPrepend(HeartPlaceholder, Replace(s[|Heart|..], Heart, HeartPlaceholder));
      } else {
        TagsClosedSuffix(s, 1);
        PlaceholderKeepsTagsClosed(s[1..]);
        var rest := Replace(s[1..], Heart, HeartPlaceholder);
        var r := [s[0]] + rest;
        forall i | 0 <= i < |r| && r[i] == '<'
          ensures '>' in r[i + 1..]
        {
          if i == 0 {
            assert '>' in s[1..];
            CharSurvivesReplace(s[1..], Heart, HeartPlaceholder, '>');
            assert r[1..] == rest;
          } else {
            assert r[i + 1..] == rest[i..];
          }
        }
      }
    } else {
      ReplaceShort(s, Heart, HeartPlaceholder);
    }
  }

  /** Text that is neither a heart nor inside a tag passes through. */
  lemma {:induction false} CleanHtmlTagsUnchanged(s: string)
    requires '<' !in s && !Contains(s, HeartPlaceholder)
    ensures CleanHtmlTags(s) == s
  {
    PlaceholderFacts();
    MissingCharNotContained(s, Heart, '<');
    ReplaceAbsent(s, Heart, HeartPlaceholder);
    StripTagsWithoutBrackets(s, 0);
    ReplaceAbsent(s, HeartPlaceholder, Heart);
  }

  /** Without hearts, and when tag removal does not spell out the marker,
      the result is exactly the removal of every `<[^>]*>`. */
  lemma {:induction false} CleanHtmlTagsWithoutHearts(s: string)
    requires !Contains(s, Heart) && !Contains(StripTags(s, 0), HeartPlaceholder)
    ensures CleanHtmlTags(s) == StripTags(s, 0)
  {
    ReplaceAbsent(s, Heart, HeartPlaceholder);
    ReplaceAbsent(StripTags(s, 0), HeartPlaceholder, Heart);
  }

  /** A heart at the very end always survives. */
  lemma {:induction false} CleanHtmlTagsTrailingHeart(s: string)
    ensures CleanHtmlTags(s + Heart) == CleanHtmlTags(s) + Heart
  {
    PlaceholderFacts();
    var h := Replace(s, Heart, HeartPlaceholder);
    ReplaceAppendedPattern(s, Heart, HeartPlaceholder);
    StripTagsKeepsTrailingText(h, HeartPlaceholder, 0);
    ReplaceAppendedPattern(StripTags(h, 0), HeartPlaceholder, Heart);
  }

  /** Masking a border-free pattern, removing tags and unmasking keeps an
      occurrence of the pattern that follows closed text. */
  lemma {:induction false} MaskedStripKeepsPattern(a: string, b: string, pat: string, mark: string)
    requires pat != [] && mark != [] && BorderFree(pat) && BorderFree(mark)
    requires '<' !in mark && '>' !in mark
    requires TagsClosed(Replace(a, pat, mark))
    ensures Replace(StripTags(Replace(a + pat + b, pat, mark), 0), mark, pat)
            == Replace(StripTags(Replace(a, pat, mark), 0), mark, pat) + pat
               + Replace(StripTags(Replace(b, pat, mark), 0), mark, pat)
  {
    var ha := Replace(a, pat, mark);
    var hb := Replace(b, pat, mark);
    ReplaceAroundPattern(a, pat, mark, b);
    var sa := StripTags(ha, 0);
    var sb := StripTags(hb, 0);
    assert ha + mark + hb == ha + (mark + hb);
    StripTagsClosedPrefix(ha, mark + hb, 0);
    StripTagsKeepsLeadingText(mark, hb, 0);
    assert StripTags(ha + mark + hb, 0) == sa + mark + sb;
    ReplaceAroundPattern(sa, mark, pat, sb);
  }

  /** A heart after text whose tags are all closed survives, and the text on
      either side of it is cleaned on its own. */
  lemma {:induction false} CleanHtmlTagsKeepsHeart(a: string, b: string)
    requires TagsClosed(a)
    ensures CleanHtmlTags(a + Heart + b) == CleanHtmlTags(a) + Heart + CleanHtmlTags(b)
  {
    PlaceholderFacts();
    PlaceholderKeepsTagsClosed(a);
    MaskedStripKeepsPattern(a, b, Heart, HeartPlaceholder);
  }

  /** Skipping leading text and then one whole tag. */
  lemma {:induction false} StripTagsSkipsTag(x: string, t: string, b: string, minInner: nat)
    requires '<' !in x && '>' !in t && |t| >= minInner
    ensures StripTags(x + "<" + t + ">" + b, minInner) == x + StripTags(b, minInner)
  {
    assert x + "<" + t + ">" + b == x + ("<" + t + ">" + b);
    StripTagsKeepsLeadingText(x, "<" + t + ">" + b, minInner);
    StripTagsRemovesTag(t, b, minInner);
  }

  /** A text with no `3` right after a `<` holds no heart. */
  lemma {:induction false} NoHeartUnlessAfterLt(s: string)
    requires forall i :: 0 < i < |s| && s[i] == '3' ==> s[i - 1] != '<'
    ensures !Contains(s, Heart)
    decreases |s|
  {
    if |s| >= 2 {
      assert s[..2] != Heart by {
        assert Heart[0] == '<' && Heart[1] == '3';
      }
      NoHeartUnlessAfterLt(s[1..]);
    }
  }

  /** Text between two tags, such as an opening and a closing tag, is
      unwrapped: `<p>Hello world</p>` becomes `Hello world`. */
  lemma {:induction false} CleanHtmlTagsUnwrapsElement(open: string, text: string, close: string)
    requires '>' !in open && '>' !in close && '3' !in open && '3' !in close
    requires '<' !in text && !Contains(text, HeartPlaceholder)
    ensures CleanHtmlTags("<" + open + ">" + text + "<" + close + ">") == text
  {
    var s := "<" + open + ">" + text + "<" + close + ">";
    ElementStripsToText(open, text, close);
    ElementHoldsNoHeart(open, text, close);
    PlaceholderFacts();
    CleanHtmlTagsWithoutHearts(s);
  }

  lemma {:induction false} ElementStripsToText(open: string, text: string, close: string)
    requires '>' !in open && '>' !in close && '<' !in text
    ensures StripTags("<" + open + ">" + text + "<" + close + ">", 0) == text
  {
    var s := "<" + open + ">" + text + "<" + close + ">";
    var rest := text + "<" + close + ">";
    var e: string := [];
    assert s == e + "<" + open + ">" + rest;
    assert rest == text + "<" + close + ">" + e;
    StripTagsSkipsTag(e, open, rest, 0);
    StripTagsSkipsTag(text, close, e, 0);
    assert StripTags(e, 0) == e;
    assert text + e == text;
    assert e + StripTags(rest, 0) == StripTags(rest, 0);
  }

  lemma {:induction false} ElementHoldsNoHeart(open: string, text: string, close: string)
    requires '3' !in open && '3' !in close && '<' !in text
    ensures !Contains("<" + open + ">" + text + "<" + close + ">", Heart)
  {
    var s := "<" + open + ">" + text + "<" + close + ">";
    forall i | 0 < i < |s|
      ensures s[i] == '3' ==> s[i - 1] != '<'
    {
      var p := |open| + 2;
      if i < p - 1 {
        assert s[i] == open[i - 1];
      } else if i == p - 1 {
        assert s[i] == '>';
      } else if i >= p + |text| {
        var q := i - p - |text|;
        assert s[i] == ("<" + close + ">")[q];
        assert q == 0 || ("<" + close + ">")[q] in close + ">";
      } else if i > p {
        assert s[i - 1] == text[i - 1 - p];
      } else {
        assert s[i - 1] == '>';
      }
    }
    NoHeartUnlessAfterLt(s);
  }

  // ---------------------------------------------------------------------
  // get_rid_of_non_alphanumeric_characters

  /** One `key: replacement` item of a character map; `None` keeps the
      key for a later stage. */
  datatype CharMapEntry = CharMapEntry(key: string, replacement: Option<string>)

  const CharMapPart1: seq<CharMapEntry> := [
    CharMapEntry("%", Some(" ")),
    CharMapEntry("\U{B4}", Some("'")),
    CharMapEntry(")", Some(" ")),
    CharMapEntry("}", Some(" ")),
    CharMapEntry("-", None),
    CharMapEntry("/", Some(" ")),
    CharMapEntry("$", Some(" ")),
    CharMapEntry("_", Some(" ")),
    CharMapEntry("\U{A3}", Some(" ")),
    CharMapEntry("\\", Some(" "))
  ]

  const CharMapPart2: seq<CharMapEntry> := [
    CharMapEntry("'", Some("'")),
    CharMapEntry("\U{201C}", Some(" ")),
    CharMapEntry("~", Some(" ")),
    CharMapEntry("\U{A6}", Some(" ")),
    CharMapEntry("\U{BB}", Some(" ")),
    CharMapEntry("^", Some(" ")),
    CharMapEntry("\U{A8}", Some(" ")),
    CharMapEntry("(", Some(" ")),
    CharMapEntry("\U{201D}", Some(" ")),
    CharMapEntry("|", Some(" "))
  ]

  const CharMapPart3: seq<CharMapEntry> := [
    CharMapEntry("\U{2019}", Some("'")),
    CharMapEntry(".", Some(" ")),
    CharMapEntry("[", Some(" ")),
    CharMapEntry("\U{B0}", Some(" ")),
    CharMapEntry("\U{A1}", Some(" ")),
    CharMapEntry("\U{B7}", Some(" ")),
    CharMapEntry("!", Some(" ")),
    CharMapEntry("+", Some(" ")),
    CharMapEntry("\U{A4}", Some(" ")),
    CharMapEntry("\U{BF}", Some(" "))
  ]

  const CharMapPart4: seq<CharMapEntry> := [
    CharMapEntry(";", Some(" ")),
    CharMapEntry("{", Some(" ")),
    CharMapEntry("\"", Some(" ")),
    CharMapEntry("?", Some(" ")),
    CharMapEntry("<", Some(" ")),
    CharMapEntry(">", Some(" ")),
    CharMapEntry("\U{2013}", Some(" ")),
    CharMapEntry("\U{AE}", Some(" ")),
    CharMapEntry("*", Some(" ")),
    CharMapEntry("=", Some(" "))
  ]

  const CharMapPart5: seq<CharMapEntry> := [
    CharMapEntry("#", Some(" ")),
    CharMapEntry("]", Some(" ")),
    CharMapEntry("\U{2026}", Some(" ")),
    CharMapEntry(":", Some(" ")),
    CharMapEntry(",", Some(" ")),
    CharMapEntry("&", Some(" ")),
    CharMapEntry("\U{20A4}", Some(" ")),
    CharMapEntry("\U{2018}", Some("'")),
    CharMapEntry("\U{A7}", Some(" ")),
    CharMapEntry("`", Some(" "))
  ]

  const CharMapPart6: seq<CharMapEntry> := [
    CharMapEntry("@", Some(" ")),
    CharMapEntry("\U{AB}", Some(" ")),
    CharMapEntry("\U{BD}", Some(" ")),
    CharMapEntry("\U{A2}", Some(" ")),
    CharMapEntry("\U{A9}", Some(" ")),
    CharMapEntry("\U{2033}", Some(" ")),
    CharMapEntry("\U{FF0C}", Some(" ")),
    CharMapEntry("\U{3001}", Some(" ")),
    CharMapEntry("\U{2605}", Some(" ")),
    CharMapEntry("\U{25BC}", Some(" "))
  ]

  /** `CHAR_MAP_DEFAULT`, in the dictionary's insertion order, which is the
      order its items are applied in. */
  const CharMapDefault: seq<CharMapEntry> :=
    CharMapPart1 + CharMapPart2 + CharMapPart3 + CharMapPart4 + CharMapPart5 + CharMapPart6

  /** The text after `text = text.replace(key, replacement)` for each item
      in order, skipping the items whose replacement is `None`. */
  function CharMapApplied(text: string, charMap: seq<CharMapEntry>): string
    decreases |charMap|
  {
    if charMap == [] then text
    else if charMap[0].replacement.None? then CharMapApplied(text, charMap[1..])
    else CharMapApplied(Replace(text, charMap[0].key, charMap[0].replacement.value), charMap[1..])
  }

  method GetRidOfNonAlphanumericCharacters(text: string, charMap: seq<CharMapEntry>)
    returns (r: string)
    ensures r == CharMapApplied(text, charMap)
  {
    r := text;
    var i := 0;
    while i < |charMap|
      invariant 0 <= i <= |charMap|
      invariant CharMapApplied(r, charMap[i..]) == CharMapApplied(text, charMap)
    {
      assert charMap[i..][1..] == charMap[i + 1..];
      var entry := charMap[i];
      i := i + 1;
      if entry.replacement.None? {
        continue;
      }
      r := Replace(r, entry.key, entry.replacement.value);
    }
  }

  /** Every key, and every replacement that is present, is one character. */
  predicate SingleCharMap(m: seq<CharMapEntry>) {
    forall i :: 0 <= i < |m| ==>
      |m[i].key| == 1 && (m[i].replacement.Some? ==> |m[i].replacement.value| == 1)
  }

  /** Where one character ends up when the items are applied in order. */
  function MapChar(m: seq<CharMapEntry>, c: char): char
    requires SingleCharMap(m)
    decreases |m|
  {
    if m == [] then c
    else if m[0].replacement.Some? && m[0].key == [c] then MapChar(m[1..], m[0].replacement.value[0])
    else MapChar(m[1..], c)
  }

  /** A map of single characters acts position by position. */
  lemma {:induction false} CharMapPointwise(text: string, m: seq<CharMapEntry>)
    requires SingleCharMap(m)
    ensures |CharMapApplied(text, m)| == |text|
    ensures forall i :: 0 <= i < |text| ==> CharMapApplied(text, m)[i] == MapChar(m, text[i])
    decreases |m|
  {
    if m != [] {
      if m[0].replacement.None? {
        CharMapPointwise(text, m[1..]);
      } else {
        var k := m[0].key[0];
        var d := m[0].replacement.value[0];
        assert m[0].key == [k] && m[0].replacement.value == [d];
        var t := Replace(text, [k], [d]);
        ReplaceOneChar(text, k, d);
        CharMapPointwise(t, m[1..]);
      }
    }
  }

  /** `c` is the key of an item that replaces it. */
  predicate ActiveKey(m: seq<CharMapEntry>, c: char) {
    exists i :: 0 <= i < |m| && m[i].key == [c] && m[i].replacement.Some?
  }

  /** The characters that the default map unifies into an apostrophe. */
  predicate QuoteLike(c: char) {
    c == '\U{B4}' || c == '\'' || c == '\U{2019}' || c == '\U{2018}'
  }

  /** The shape of every default item: a single non-alphanumeric key other
      than the space; only the dash is kept for later; the quote-like
      characters become an apostrophe and the others a space. */
  predicate EntryOk(e: CharMapEntry) {
    |e.key| == 1 && !IsAlnum(e.key[0]) && e.key[0] != ' '
    && (e.replacement.None? <==> e.key[0] == '-')
    && (e.replacement.Some? ==> e.replacement.value == (if QuoteLike(e.key[0]) then "'" else " "))
  }

  /** The shape of an item follows from its key character alone. */
  lemma EntryOkFromKey(e: CharMapEntry)
    requires |e.key| == 1 && !IsAlnum(e.key[0]) && e.key[0] != ' '
    requires e.key[0] == '-' ==> e.replacement.None?
    requires e.key[0] != '-' ==> e.replacement == Some(if QuoteLike(e.key[0]) then "'" else " ")
    ensures EntryOk(e)
  {
  }

  lemma {:induction false} CharMapPart1Ok()
    ensures forall e :: e in CharMapPart1 ==> EntryOk(e)
  {
    var m := CharMapPart1;
    forall i | 0 <= i < |m|
      ensures EntryOk(m[i])
    {
      EntryOkFromKey(m[i]);
    }
  }

  lemma {:induction false} CharMapPart2Ok()
    ensures forall e :: e in CharMapPart2 ==> EntryOk(e)
  {
    var m := CharMapPart2;
    forall i | 0 <= i < |m|
      ensures EntryOk(m[i])
    {
      EntryOkFromKey(m[i]);
    }
  }

  lemma {:induction false} CharMapPart3Ok()
    ensures forall e :: e in CharMapPart3 ==> EntryOk(e)
  {
    var m := CharMapPart3;
    forall i | 0 <= i < |m|
      ensures EntryOk(m[i])
    {
      EntryOkFromKey(m[i]);
    }
  }

  lemma {:induction false} CharMapPart4Ok()
    ensures forall e :: e in CharMapPart4 ==> EntryOk(e)
  {
    var m := CharMapPart4;
    forall i | 0 <= i < |m|
      ensures EntryOk(m[i])
    {
      EntryOkFromKey(m[i]);
    }
  }

  lemma {:induction false} CharMapPart5Ok()
    ensures forall e :: e in CharMapPart5 ==> EntryOk(e)
  {
    var m := CharMapPart5;
    forall i | 0 <= i < |m|
      ensures EntryOk(m[i])
    {
      EntryOkFromKey(m[i]);
    }
  }

  lemma {:induction false} CharMapPart6Ok()
    ensures forall e :: e in CharMapPart6 ==> EntryOk(e)
  {
    var m := CharMapPart6;
    forall i | 0 <= i < |m|
      ensures EntryOk(m[i])
    {
      EntryOkFromKey(m[i]);
    }
  }

  lemma {:induction false} CharMapDefaultOk()
    ensures forall e :: e in CharMapDefault ==> EntryOk(e)
  {
    CharMapPart1Ok();
    CharMapPart2Ok();
    CharMapPart3Ok();
    CharMapPart4Ok();
    CharMapPart5Ok();
    CharMapPart6Ok();
  }

  lemma {:induction false} MapCharFixed(m: seq<CharMapEntry>, c: char)
    requires forall e :: e in m ==> EntryOk(e)
    requires c == ' ' || c == '\''
    ensures SingleCharMap(m) && MapChar(m, c) == c
    decreases |m|
  {
    if m != [] {
      assert m[0] in m;
      assert forall e :: e in m[1..] ==> e in m;
      MapCharFixed(m[1..], c);
    }
  }

  /** Under items of the default shape a character is replaced exactly
      when it is an active key, by an apostrophe if it is quote-like and by
      a space otherwise, and later items never move it again. */
  lemma {:induction false} MapCharWellFormed(m: seq<CharMapEntry>, c: char)
    requires forall e :: e in m ==> EntryOk(e)
    ensures SingleCharMap(m)
    ensures MapChar(m, c) == if ActiveKey(m, c) then (if QuoteLike(c) then '\'' else ' ') else c
    decreases |m|
  {
    if m != [] {
      assert m[0] in m;
      assert forall e :: e in m[1..] ==> e in m;
      MapCharFixed(m, ' ');
      if m[0].replacement.Some? && m[0].key == [c] {
        var d := m[0].replacement.value[0];
        assert d == ' ' || d == '\'';
        MapCharFixed(m[1..], d);
        assert ActiveKey(m, c) by {
          assert m[0].key == [c] && m[0].replacement.Some?;
        }
      } else {
        MapCharWellFormed(m[1..], c);
        assert ActiveKey(m, c) <==> ActiveKey(m[1..], c) by {
          if ActiveKey(m, c) {
            var i :| 0 <= i < |m| && m[i].key == [c] && m[i].replacement.Some?;
            assert i > 0 && m[1..][i - 1] == m[i];
          }
          if ActiveKey(m[1..], c) {
            var i :| 0 <= i < |m[1..]| && m[1..][i].key == [c] && m[1..][i].replacement.Some?;
            assert m[i + 1] == m[1..][i];
          }
        }
      }
    }
  }

  /** Under items of the default shape the text keeps its length; a
      character that is the key of an active item becomes an apostrophe
      when it is quote-like and a space otherwise, and every other
      character is kept. */
  lemma {:induction false} WellFormedMapPointwise(text: string, m: seq<CharMapEntry>)
    requires forall e :: e in m ==> EntryOk(e)
    ensures |CharMapApplied(text, m)| == |text|
    ensures forall i :: 0 <= i < |text| ==>
      CharMapApplied(text, m)[i]
      == if ActiveKey(m, text[i]) then (if QuoteLike(text[i]) then '\'' else ' ') else text[i]
  {
    MapCharWellFormed(m, ' ');
    CharMapPointwise(text, m);
    forall i | 0 <= i < |text|
      ensures MapChar(m, text[i])
              == if ActiveKey(m, text[i]) then (if QuoteLike(text[i]) then '\'' else ' ') else text[i]
    {
      MapCharWellFormed(m, text[i]);
    }
  }

  /** Letters, digits, the space and the dash are never active keys. */
  lemma {:induction false} ActiveKeyShape(m: seq<CharMapEntry>, c: char)
    requires forall e :: e in m ==> EntryOk(e)
    requires ActiveKey(m, c)
    ensures !IsAlnum(c) && c != ' ' && c != '-'
  {
    var i :| 0 <= i < |m| && m[i].key == [c] && m[i].replacement.Some?;
    assert m[i] in m;
  }

  /** Applying a map of the default shape a second time changes nothing:
      what is left holds no active key except the self-mapped apostrophe. */
  lemma {:induction false} WellFormedMapIdempotent(text: string, m: seq<CharMapEntry>)
    requires forall e :: e in m ==> EntryOk(e)
    ensures forall i :: 0 <= i < |CharMapApplied(text, m)| && ActiveKey(m, CharMapApplied(text, m)[i]) ==>
      CharMapApplied(text, m)[i] == '\''
    ensures CharMapApplied(CharMapApplied(text, m), m) == CharMapApplied(text, m)
  {
    var r := CharMapApplied(text, m);
    WellFormedMapPointwise(text, m);
    WellFormedMapPointwise(r, m);
    forall i | 0 <= i < |r| && ActiveKey(m, r[i])
      ensures r[i] == '\''
    {
      ActiveKeyShape(m, r[i]);
    }
  }

  /** The default map: position by position as above, letters, digits,
      spaces and dashes kept, and applying it twice is applying it once. */
  lemma {:induction false} CharMapDefaultBehaviour(text: string)
    ensures |CharMapApplied(text, CharMapDefault)| == |text|
    ensures forall i :: 0 <= i < |text| ==>
      CharMapApplied(text, CharMapDefault)[i]
      == if ActiveKey(CharMapDefault, text[i]) then (if QuoteLike(text[i]) then '\'' else ' ') else text[i]
    ensures forall i :: 0 <= i < |text| && (IsAlnum(text[i]) || text[i] == ' ' || text[i] == '-') ==>
      CharMapApplied(text, CharMapDefault)[i] == text[i]
    ensures CharMapApplied(CharMapApplied(text, CharMapDefault), CharMapDefault) == CharMapApplied(text, CharMapDefault)
  {
    CharMapDefaultOk();
    WellFormedMapPointwise(text, CharMapDefault);
    WellFormedMapIdempotent(text, CharMapDefault);
    forall i | 0 <= i < |text| && ActiveKey(CharMapDefault, text[i])
      ensures !IsAlnum(text[i]) && text[i] != ' ' && text[i] != '-'
    {
      ActiveKeyShape(CharMapDefault, text[i]);
    }
  }

  /** The default map turns an `@` into a space and keeps the letters,
      digits and spaces around it. */
  lemma {:induction false} CharMapDefaultReplacesAt(x: string, y: string)
    requires forall i :: 0 <= i < |x| ==> IsAlnum(x[i]) || x[i] == ' '
    requires forall i :: 0 <= i < |y| ==> IsAlnum(y[i]) || y[i] == ' '
    ensures CharMapApplied(x + "@" + y, CharMapDefault) == x + " " + y
  {
    var a := x + "@" + y;
    var e := x + " " + y;
    CharMapDefaultBehaviour(a);
    var r := CharMapApplied(a, CharMapDefault);
    assert ActiveKey(CharMapPart6, '@') by {
      assert CharMapPart6[0].key == ['@'] && CharMapPart6[0].replacement.Some?;
    }
    ActiveKeyInLastPart('@');
    assert |r| == |e|;
    forall i | 0 <= i < |a|
      ensures r[i] == e[i]
    {
      if i < |x| {
        assert a[i] == x[i] && e[i] == x[i];
      } else if i == |x| {
        assert a[i] == '@' && e[i] == ' ';
      } else {
        assert a[i] == y[i - |x| - 1] && e[i] == y[i - |x| - 1];
      }
    }
  }

  lemma {:induction false} CharMapDefaultAtExample()
    ensures CharMapApplied("Hello @ world", CharMapDefault) == "Hello   world"
  {
    var x := "Hello ";
    var y := " world";
    assert x + "@" + y == "Hello @ world";
    assert x + " " + y == "Hello   world";
    CharMapDefaultReplacesAt(x, y);
  }

  /** An active key of the last part of the default map is an active key
      of the whole map. */
  lemma ActiveKeyInLastPart(c: char)
    requires ActiveKey(CharMapPart6, c)
    ensures ActiveKey(CharMapDefault, c)
  {
    var i :| 0 <= i < |CharMapPart6| && CharMapPart6[i].key == [c] && CharMapPart6[i].replacement.Some?;
    var pre := CharMapPart1 + CharMapPart2 + CharMapPart3 + CharMapPart4 + CharMapPart5;
    assert CharMapDefault == pre + CharMapPart6;
    assert CharMapDefault[|pre| + i] == CharMapPart6[i];
  }

  // ---------------------------------------------------------------------
  // keep_or_remove_dashes

  /** A dash at `i` is part of a word: it has an alphanumeric character on
      each side. */
  predicate DashKept(text: string, i: int)
    requires 0 <= i < |text|
  {
    i > 0 && IsAlnum(text[i - 1]) && i < |text| - 1 && IsAlnum(text[i + 1])
  }

  /** The text where every dash that is not part of a word is a space. */
  function DashesResolved(text: string): (r: string)
    ensures |r| == |text|
  {
    seq(|text|, i requires 0 <= i < |text| =>
      if text[i] == '-' && !DashKept(text, i) then ' ' else text[i])
  }

  method KeepOrRemoveDashes(text: string) returns (r: string)
    ensures |r| == |text|
    ensures forall i :: 0 <= i < |text| && text[i] != '-' ==> r[i] == text[i]
    ensures forall i :: 0 <= i < |text| && text[i] == '-' ==>
      r[i] == (if DashKept(text, i) then '-' else ' ')
    ensures r == DashesResolved(text)
  {
    r := [];
    var n := |text|;
    for i := 0 to n
      invariant |r| == i
      invariant forall k :: 0 <= k < i ==> r[k] == DashesResolved(text)[k]
    {
      var c := text[i];
      if c == '-' {
        var isPartOfWord := i > 0 && IsAlnum(text[i - 1]) && i < n - 1 && IsAlnum(text[i + 1]);
        if isPartOfWord {
          r := r + ['-'];
        } else {
          r := r + [' '];
        }
      } else {
        r := r + [c];
      }
    }
  }

  /** Every dash left is part of a word, and resolving again changes
      nothing. */
  lemma {:induction false} DashesResolvedProperties(text: string)
    ensures forall i :: 0 <= i < |text| && DashesResolved(text)[i] == '-' ==> DashKept(DashesResolved(text), i)
    ensures DashesResolved(DashesResolved(text)) == DashesResolved(text)
  {
    var r := DashesResolved(text);
    forall i | 0 <= i < |text| && r[i] == '-'
      ensures DashKept(r, i)
    {
      assert DashKept(text, i);
      assert r[i - 1] == text[i - 1] && r[i + 1] == text[i + 1];
    }
  }

  /** Text without dashes is left as it is. */
  lemma {:induction false} DashesResolvedWithoutDashes(t: string)
    requires '-' !in t
    ensures DashesResolved(t) == t
  {
    forall i | 0 <= i < |t|
      ensures DashesResolved(t)[i] == t[i]
    {
      assert t[i] in t;
    }
  }

  /** A run of dashes between two texts: the run is kept only when it is a
      single dash with an alphanumeric character on each side; otherwise
      every dash of it becomes a space. The texts on either side are
      resolved on their own, since every character beside the run is
      either a dash, resolved the same way on its own, or not a dash. */
  lemma {:induction false} DashesResolvedAroundRun(x: string, d: string, y: string)
    requires d != [] && forall k :: 0 <= k < |d| ==> d[k] == '-'
    ensures DashesResolved(x + d + y)
            == DashesResolved(x)
               + (if |d| == 1 && x != [] && y != [] && IsAlnum(x[|x| - 1]) && IsAlnum(y[0])
                  then d else seq(|d|, k => ' '))
               + DashesResolved(y)
  {
    var s := x + d + y;
    var kept := |d| == 1 && x != [] && y != [] && IsAlnum(x[|x| - 1]) && IsAlnum(y[0]);
    var mid: string := if kept then d else seq(|d|, k => ' ');
    var rhs := DashesResolved(x) + mid + DashesResolved(y);
    forall i | 0 <= i < |s|
      ensures DashesResolved(s)[i] == rhs[i]
    {
      if i < |x| {
        DashesAroundRunLeft(x, d, y, i);
      } else if i < |x| + |d| {
        assert s[i] == '-';
      } else {
        DashesAroundRunRight(x, d, y, i - |x| - |d|);
      }
    }
  }

  lemma {:induction false} DashesAroundRunLeft(x: string, d: string, y: string, i: nat)
    requires d != [] && d[0] == '-' && i < |x|
    ensures DashesResolved(x + d + y)[i] == DashesResolved(x)[i]
  {
    var s := x + d + y;
    assert s[i] == x[i];
    if i > 0 {
      assert s[i - 1] == x[i - 1];
    }
    if i + 1 < |x| {
      assert s[i + 1] == x[i + 1];
    } else {
      assert s[i + 1] == '-';
    }
  }

  lemma {:induction false} DashesAroundRunRight(x: string, d: string, y: string, j: nat)
    requires d != [] && d[|d| - 1] == '-' && j < |y|
    ensures DashesResolved(x + d + y)[|x| + |d| + j] == DashesResolved(y)[j]
  {
    var s := x + d + y;
    var i := |x| + |d| + j;
    assert s[i] == y[j];
    if j > 0 {
      assert s[i - 1] == y[j - 1];
    } else {
      assert s[i - 1] == '-';
    }
    if j + 1 < |y| {
      assert s[i + 1] == y[j + 1];
    }
  }

  /** The examples of the docstring and the inline tests of
      `keep_or_remove_dashes`. */
  lemma {:induction false} DashesExamples()
    ensures DashesResolved("a-composed-word") == "a-composed-word"
    ensures DashesResolved("an hyphen in - the - middle - of a word")
            == "an hyphen in   the   middle   of a word"
    ensures DashesResolved(" - this is a bullet list but this-is-a-composed-word")
            == "   this is a bullet list but this-is-a-composed-word"
    ensures DashesResolved("multiple---consecutive---dashes") == "multiple   consecutive   dashes"
  {
    ComposedWordExample();
    HyphenExample();
    BulletExample();
    ConsecutiveExample();
  }

  lemma {:induction false} ComposedWordExample()
    ensures DashesResolved("a-composed-word") == "a-composed-word"
  {
    WordsJoinedByDashes("a", "composed", "word");
    ComposedWordSpelled();
  }

  lemma {:induction false} HyphenExample()
    ensures DashesResolved("an hyphen in - the - middle - of a word")
            == "an hyphen in   the   middle   of a word"
  {
    SpacedDashes("an hyphen in ", " the ", " middle ", " of a word");
    HyphenInputSpelled();
    HyphenOutputSpelled();
  }

  lemma {:induction false} BulletExample()
    ensures DashesResolved(" - this is a bullet list but this-is-a-composed-word")
            == "   this is a bullet list but this-is-a-composed-word"
  {
    WordsJoinedByDashes("is", "a", "composed");
    TailSpelled();
    WordsJoinedByDashes("this", "is-a-composed", "word");
    BulletDash(" ", " this is a bullet list but ", "this-is-a-composed-word");
    BulletInputSpelled();
    BulletOutputSpelled();
  }

  lemma {:induction false} ConsecutiveExample()
    ensures DashesResolved("multiple---consecutive---dashes") == "multiple   consecutive   dashes"
  {
    DashRunsBetween("multiple", "consecutive", "dashes", "---", "   ");
    ConsecutiveInputSpelled();
    ConsecutiveOutputSpelled();
  }

  // The literals of the examples, assembled from their pieces.

  lemma {:induction false} ComposedWordSpelled()
    ensures "a" + "-" + "composed" + "-" + "word" == "a-composed-word"
  {
  }

  lemma {:induction false} HyphenInputSpelled()
    ensures "an hyphen in " + "-" + " the " + "-" + " middle " + "-" + " of a word"
            == "an hyphen in - the - middle - of a word"
  {
  }

  lemma {:induction false} HyphenOutputSpelled()
    ensures "an hyphen in " + " " + " the " + " " + " middle " + " " + " of a word"
            == "an hyphen in   the   middle   of a word"
  {
  }

  lemma {:induction false} TailSpelled()
    ensures "is" + "-" + "a" + "-" + "composed" == "is-a-composed"
    ensures "this" + "-" + "is-a-composed" + "-" + "word" == "this-is-a-composed-word"
  {
  }

  lemma {:induction false} BulletInputSpelled()
    ensures " " + "-" + " this is a bullet list but " + "this-is-a-composed-word"
            == " - this is a bullet list but this-is-a-composed-word"
  {
    BulletInputHead();
    BulletInputWhole();
  }

  lemma {:induction false} BulletInputHead()
    ensures " " + "-" + " this is a bullet list but " == " - this is a bullet list but "
  {
  }

  lemma {:induction false} BulletInputWhole()
    ensures " - this is a bullet list but " + "this-is-a-composed-word"
            == " - this is a bullet list but this-is-a-composed-word"
  {
  }

  lemma {:induction false} BulletOutputSpelled()
    ensures " " + " " + " this is a bullet list but " + "this-is-a-composed-word"
            == "   this is a bullet list but this-is-a-composed-word"
  {
    BulletOutputHead();
    BulletOutputWhole();
  }

  lemma {:induction false} BulletOutputHead()
    ensures " " + " " + " this is a bullet list but " == "   this is a bullet list but "
  {
  }

  lemma {:induction false} BulletOutputWhole()
    ensures "   this is a bullet list but " + "this-is-a-composed-word"
            == "   this is a bullet list but this-is-a-composed-word"
  {
  }

  lemma {:induction false} ConsecutiveInputSpelled()
    ensures "multiple" + "---" + "consecutive" + "---" + "dashes" == "multiple---consecutive---dashes"
  {
  }

  lemma {:induction false} ConsecutiveOutputSpelled()
    ensures "multiple" + "   " + "consecutive" + "   " + "dashes" == "multiple   consecutive   dashes"
  {
  }

  /** A single dash between two resolved texts that meet it with
      alphanumeric characters is kept. */
  lemma {:induction false} DashKeptBetween(x: string, y: string)
    requires x != [] && y != [] && IsAlnum(x[|x| - 1]) && IsAlnum(y[0])
    requires DashesResolved(x) == x && DashesResolved(y) == y
    ensures DashesResolved(x + "-" + y) == x + "-" + y
  {
    DashesResolvedAroundRun(x, "-", y);
  }

  /** A run of dashes between two texts that is not a single dash between
      alphanumerics becomes as many spaces. */
  lemma {:induction false} DashRunDropped(x: string, d: string, y: string, rx: string, sp: string, ry: string)
    requires d != [] && forall k :: 0 <= k < |d| ==> d[k] == '-'
    requires |sp| == |d| && forall k :: 0 <= k < |sp| ==> sp[k] == ' '
    requires !(|d| == 1 && x != [] && y != [] && IsAlnum(x[|x| - 1]) && IsAlnum(y[0]))
    requires DashesResolved(x) == rx && DashesResolved(y) == ry
    ensures DashesResolved(x + d + y) == rx + sp + ry
  {
    DashesResolvedAroundRun(x, d, y);
    assert sp == seq(|d|, k => ' ');
  }

  /** Words joined by dashes, as in a composed word, stay as they are. */
  lemma {:induction false} WordsJoinedByDashes(a: string, b: string, c: string)
    requires a != [] && b != [] && c != []
    requires DashesResolved(a) == a && DashesResolved(b) == b && DashesResolved(c) == c
    requires IsAlnum(a[|a| - 1]) && IsAlnum(b[0]) && IsAlnum(b[|b| - 1]) && IsAlnum(c[0])
    ensures DashesResolved(a + "-" + b + "-" + c) == a + "-" + b + "-" + c
  {
    DashKeptBetween(b, c);
    var bc := b + "-" + c;
    assert bc[0] == b[0];
    DashKeptBetween(a, bc);
    assert a + "-" + bc == a + "-" + b + "-" + c;
  }

  /** Dashes with a space on one side, between dash-free texts, all become
      spaces. */
  lemma {:induction false} SpacedDashes(a: string, b: string, c: string, e: string)
    requires '-' !in a && '-' !in b && '-' !in c && '-' !in e
    requires b != [] && b[0] == ' ' && c != [] && c[0] == ' ' && e != [] && e[0] == ' '
    ensures DashesResolved(a + "-" + b + "-" + c + "-" + e) == a + " " + b + " " + c + " " + e
  {
    DashesResolvedWithoutDashes(a);
    DashesResolvedWithoutDashes(b);
    DashesResolvedWithoutDashes(c);
    DashesResolvedWithoutDashes(e);
    var ce, rce := c + "-" + e, c + " " + e;
    DashRunDropped(c, "-", e, c, " ", e);
    assert ce[0] == ' ';
    var bce, rbce := b + "-" + ce, b + " " + rce;
    DashRunDropped(b, "-", ce, b, " ", rce);
    assert bce[0] == ' ';
    DashRunDropped(a, "-", bce, a, " ", rbce);
    Regroup(a, "-", b, "-", c, "-", e);
    Regroup(a, " ", b, " ", c, " ", e);
  }

  /** `a + p + (b + q + (c + r + e))` written left to right. */
  lemma {:induction false} Regroup(a: string, p: string, b: string, q: string, c: string, r: string, e: string)
    ensures a + p + (b + q + (c + r + e)) == a + p + b + q + c + r + e
  {
  }

  /** `a + p + (b + q + c)` written left to right. */
  lemma {:induction false} RegroupFive(a: string, p: string, b: string, q: string, c: string)
    ensures a + p + (b + q + c) == a + p + b + q + c
  {
  }

  /** A leading dash set off by spaces, as in a bullet list, becomes a
      space; the rest is resolved on its own. */
  lemma {:induction false} BulletDash(lead: string, words: string, tail: string)
    requires '-' !in lead && '-' !in words && lead != [] && lead[|lead| - 1] == ' '
    requires words != [] && words[|words| - 1] != '-' && tail != [] && tail[0] != '-'
    requires DashesResolved(tail) == tail
    ensures DashesResolved(lead + "-" + words + tail) == lead + " " + words + tail
  {
    DashesResolvedWithoutDashes(lead);
    DashesResolvedWithoutDashes(words);
    DashesAppendAtNonDash(words, tail);
    DashRunDropped(lead, "-", words + tail, lead, " ", words + tail);
    assert lead + "-" + (words + tail) == lead + "-" + words + tail;
  }

  /** Runs of several dashes between dash-free texts become as many
      spaces. */
  lemma {:induction false} DashRunsBetween(a: string, b: string, c: string, d: string, sp: string)
    requires '-' !in a && '-' !in b && '-' !in c
    requires |d| >= 2 && forall k :: 0 <= k < |d| ==> d[k] == '-'
    requires |sp| == |d| && forall k :: 0 <= k < |sp| ==> sp[k] == ' '
    ensures DashesResolved(a + d + b + d + c) == a + sp + b + sp + c
  {
    DashesResolvedWithoutDashes(a);
    DashesResolvedWithoutDashes(b);
    DashesResolvedWithoutDashes(c);
    var bc, rbc := b + d + c, b + sp + c;
    DashRunDropped(b, d, c, b, sp, c);
    DashRunDropped(a, d, bc, a, sp, rbc);
    RegroupFive(a, d, b, d, c);
    RegroupFive(a, sp, b, sp, c);
  }

  /** Two texts that meet at two characters other than dashes are resolved
      on their own. */
  lemma {:induction false} DashesAppendAtNonDash(x: string, y: string)
    requires x != [] && y != [] && x[|x| - 1] != '-' && y[0] != '-'
    ensures DashesResolved(x + y) == DashesResolved(x) + DashesResolved(y)
  {
    var s := x + y;
    var rhs := DashesResolved(x) + DashesResolved(y);
    forall i | 0 <= i < |s|
      ensures DashesResolved(s)[i] == rhs[i]
    {
      if i < |x| {
        assert s[i] == x[i];
        if i > 0 { assert s[i - 1] == x[i - 1]; }
        if i + 1 < |x| { assert s[i + 1] == x[i + 1]; }
      } else {
        var j := i - |x|;
        assert s[i] == y[j];
        if j > 0 { assert s[i - 1] == y[j - 1]; }
        if j + 1 < |y| { assert s[i + 1] == y[j + 1]; }
      }
    }
  }

  // ---------------------------------------------------------------------
  // tokenize_and_clean_tokens

  /** `t.lstrip("'")`. */
  function StripLeadingQuotes(t: string): (r: string)
    ensures |r| <= |t| && r == t[|t| - |r|..]
    ensures forall k :: 0 <= k < |t| - |r| ==> t[k] == '\''
    ensures r != [] ==> r[0] != '\''
  {
    if t != [] && t[0] == '\'' then StripLeadingQuotes(t[1..]) else t
  }

  /** `t.rstrip("'")`. */
  function StripTrailingQuotes(t: string): (r: string)
    ensures |r| <= |t| && r == t[..|r|]
    ensures forall k :: |r| <= k < |t| ==> t[k] == '\''
    ensures r != [] ==> r[|r| - 1] != '\''
  {
    if t != [] && t[|t| - 1] == '\'' then StripTrailingQuotes(t[..|t| - 1]) else t
  }

  /** `t.strip("'")`. */
  function StripQuotes(t: string): string
  {
    StripTrailingQuotes(StripLeadingQuotes(t))
  }

  /** `r` is the slice `t[i..j]`, and everything of `t` before and after
      it is an apostrophe. */
  ghost predicate QuotedSpan(t: string, r: string, i: int, j: int)
  {
    0 <= i <= j <= |t| && r == t[i..j]
    && (forall k :: 0 <= k < i ==> t[k] == '\'')
    && (forall k :: j <= k < |t| ==> t[k] == '\'')
  }

  /** The result is the stretch of `t` left once the apostrophes at both
      ends are cut off: everything before and after it is an apostrophe,
      and it neither starts nor ends with one. */
  lemma {:induction false} StripQuotesCharacterized(t: string)
    ensures exists i, j :: QuotedSpan(t, StripQuotes(t), i, j)
    ensures StripQuotes(t) != [] ==>
      StripQuotes(t)[0] != '\'' && StripQuotes(t)[|StripQuotes(t)| - 1] != '\''
  {
    var l := StripLeadingQuotes(t);
    var r := StripTrailingQuotes(l);
    assert StripQuotes(t) == r;
    var i, j := StripSpan(t, l, r);
  }

  /** `l`, the suffix of `t` left after leading apostrophes, and `r`, the
      prefix of `l` left before trailing ones, make `r` a slice of `t`
      with only apostrophes around it. */
  lemma StripSpan(t: string, l: string, r: string) returns (i: nat, j: nat)
    requires |l| <= |t| && l == t[|t| - |l|..]
    requires forall k :: 0 <= k < |t| - |l| ==> t[k] == '\''
    requires l != [] ==> l[0] != '\''
    requires |r| <= |l| && r == l[..|r|]
    requires forall k :: |r| <= k < |l| ==> l[k] == '\''
    requires r != [] ==> r[|r| - 1] != '\''
    ensures QuotedSpan(t, r, i, j)
    ensures r != [] ==> r[0] != '\'' && r[|r| - 1] != '\''
  {
    i := |t| - |l|;
    j := i + |r|;
    QuotesAroundSpan(t, l, r, i);
    if r != [] {
      assert r[0] == l[0];
    }
  }

  /** `r`, a prefix of the suffix `l` of `t` that starts at `i`, is the
      slice `t[i..i + |r|]`, and what `l` has after `r` lies at the same
      place in `t`. */
  lemma QuotesAroundSpan(t: string, l: string, r: string, i: nat)
    requires i <= |t| && l == t[i..] && |r| <= |l| && r == l[..|r|]
    requires forall k :: |r| <= k < |l| ==> l[k] == '\''
    ensures r == t[i..i + |r|]
    ensures forall k :: i + |r| <= k < |t| ==> t[k] == '\''
  {
    forall k | i + |r| <= k < |t|
      ensures t[k] == '\''
    {
      assert t[k] == l[k - i];
    }
  }

  /** Stripping leaves nothing exactly when `t` is all apostrophes, and
      stripping again changes nothing. */
  lemma {:induction false} StripQuotesEmptyAndIdempotent(t: string)
    ensures StripQuotes(t) == [] <==> forall k :: 0 <= k < |t| ==> t[k] == '\''
    ensures StripQuotes(StripQuotes(t)) == StripQuotes(t)
  {
    var l := StripLeadingQuotes(t);
    var r := StripTrailingQuotes(l);
    if r == [] {
      forall k | 0 <= k < |t|
        ensures t[k] == '\''
      {
        if k >= |t| - |l| {
          assert t[k] == l[k - (|t| - |l|)];
        }
      }
    } else {
      assert r[0] == l[0];
      assert StripLeadingQuotes(r) == r;
      assert l[0] != '\'' && l[0] == t[|t| - |l|];
    }
  }

  /** The tokens kept out of `ts`, in order: each stripped of its
      apostrophes, the empty results dropped. */
  function CleanedTokens(ts: seq<Token>): seq<Token>
  {
    if ts == [] then []
    else
      var c := StripQuotes(ts[|ts| - 1]);
      CleanedTokens(ts[..|ts| - 1]) + (if c != [] then [c] else [])
  }

  method TokenizeAndCleanTokens(text: string) returns (r: seq<Token>)
    ensures r == CleanedTokens(SplitWhitespace(text))
  {
    var tokens := SplitWhitespace(text);
    r := [];
    for i := 0 to |tokens|
      invariant r == CleanedTokens(tokens[..i])
    {
      assert tokens[..i + 1][..i] == tokens[..i];
      var cleaned := StripQuotes(tokens[i]);
      if cleaned != [] {
        r := r + [cleaned];
      }
    }
    assert tokens[..|tokens|] == tokens;
  }

  /** The stripped form of every token, in order. */
  function StrippedTokens(ts: seq<Token>): (r: seq<Token>)
    ensures |r| == |ts|
  {
    seq(|ts|, i requires 0 <= i < |ts| => StripQuotes(ts[i]))
  }

  /** The loop agrees with the comprehension
      `[c for c in (t.strip("'") for t in ts) if c]`. */
  lemma {:induction false} CleanedTokensIsFilter(ts: seq<Token>)
    ensures CleanedTokens(ts) == Filter(StrippedTokens(ts), NonEmpty)
    decreases |ts|
  {
    if ts != [] {
      var init := ts[..|ts| - 1];
      var last := StripQuotes(ts[|ts| - 1]);
      CleanedTokensIsFilter(init);
      StrippedTokensSnoc(ts);
      FilterSnoc(StrippedTokens(init), last, NonEmpty);
      assert CleanedTokens(ts) == CleanedTokens(init) + (if last != [] then [last] else []);
    }
  }

  lemma {:induction false} StrippedTokensSnoc(ts: seq<Token>)
    requires ts != []
    ensures StrippedTokens(ts) == StrippedTokens(ts[..|ts| - 1]) + [StripQuotes(ts[|ts| - 1])]
  {
    var init := ts[..|ts| - 1];
    var a := StrippedTokens(ts);
    var b := StrippedTokens(init) + [StripQuotes(ts[|ts| - 1])];
    assert |a| == |b|;
    forall i | 0 <= i < |a|
      ensures a[i] == b[i]
    {
      if i < |init| {
        assert init[i] == ts[i];
      }
    }
  }

  /** A token is produced exactly when it is non-empty and is what
      stripping made of one of the input tokens. */
  lemma {:induction false} CleanedTokensMembership(ts: seq<Token>)
    ensures forall x :: x in CleanedTokens(ts) ==> x != [] && exists t :: t in ts && StripQuotes(t) == x
    ensures forall t :: t in ts && StripQuotes(t) != [] ==> StripQuotes(t) in CleanedTokens(ts)
  {
    var st := StrippedTokens(ts);
    CleanedTokensIsFilter(ts);
    FilterMembership(st, NonEmpty);
    CleanedTokensSources(ts, st);
    CleanedTokensComplete(ts, st);
  }

  lemma {:induction false} CleanedTokensSources(ts: seq<Token>, st: seq<Token>)
    requires st == StrippedTokens(ts)
    requires forall x :: x in CleanedTokens(ts) <==> x in st && NonEmpty(x)
    ensures forall x :: x in CleanedTokens(ts) ==> x != [] && exists t :: t in ts && StripQuotes(t) == x
  {
    forall x | x in CleanedTokens(ts)
      ensures x != [] && exists t :: t in ts && StripQuotes(t) == x
    {
      var i :| 0 <= i < |st| && st[i] == x;
      assert ts[i] in ts && StripQuotes(ts[i]) == x;
    }
  }

  lemma {:induction false} CleanedTokensComplete(ts: seq<Token>, st: seq<Token>)
    requires st == StrippedTokens(ts)
    requires forall x :: x in CleanedTokens(ts) <==> x in st && NonEmpty(x)
    ensures forall t :: t in ts && StripQuotes(t) != [] ==> StripQuotes(t) in CleanedTokens(ts)
  {
    forall t | t in ts && StripQuotes(t) != []
      ensures StripQuotes(t) in CleanedTokens(ts)
    {
      var i :| 0 <= i < |ts| && ts[i] == t;
      assert st[i] == StripQuotes(t);
      assert st[i] in st;
    }
  }

  /** A stripped bare token that is not empty is bare and has no
      apostrophe at either end. */
  lemma {:induction false} StrippedBareToken(t: string)
    requires IsBareToken(t) && StripQuotes(t) != []
    ensures IsBareToken(StripQuotes(t))
    ensures StripQuotes(t)[0] != '\'' && StripQuotes(t)[|StripQuotes(t)| - 1] != '\''
  {
    var x := StripQuotes(t);
    StripQuotesCharacterized(t);
    var a, b :| 0 <= a <= b <= |t| && x == t[a..b];
    forall k | 0 <= k < |x|
      ensures !IsSpace(x[k])
    {
      assert x[k] == t[a + k];
    }
  }

  /** Every token produced from the whitespace split is non-empty, holds no
      whitespace and neither starts nor ends with an apostrophe. */
  lemma {:induction false} CleanedTokensGuarantees(text: string)
    ensures forall x :: x in CleanedTokens(SplitWhitespace(text)) ==>
      IsBareToken(x) && x[0] != '\'' && x[|x| - 1] != '\''
  {
    var ts := SplitWhitespace(text);
    SplitWhitespaceTokens(text);
    CleanedTokensMembership(ts);
    forall x | x in CleanedTokens(ts)
      ensures IsBareToken(x) && x[0] != '\'' && x[|x| - 1] != '\''
    {
      var t :| t in ts && StripQuotes(t) == x;
      StrippedBareToken(t);
    }
  }
}
