/** The two string builders of text_to_speech.py: SSML-style tag wrapping (`wrap_text`) and the
    natural-language list joiner (`englishify`). Both are pure: `englishify` edits only a copy. */
module TextToSpeech {
  import opened Wrappers
  import opened PyText

  /** Python truthiness of the optional style argument `t`. */
  predicate HasStyle(t: Option<string>) {
    t.Some? && t.value != ""
  }

  /** The pieces of the tags `wrap_text` writes. */
  const Speak := "<speak>"
  const SpeakEnd := "</" + "speak>"
  const ExpressAs := "<express-as" + " type=\""
  const ExpressEnd := "</express" + "-as>"

  /** The tags `wrap_text` puts before the text. */
  function OpenTags(t: Option<string>): string {
    if HasStyle(t) then Speak + ExpressAs + t.value + "\">" else Speak
  }

  /** The tags `wrap_text` puts after the text. */
  function CloseTags(t: Option<string>): string {
    if HasStyle(t) then ExpressEnd + SpeakEnd else SpeakEnd
  }

  /** The opening tags start with `<speak>`, then, for a style, the express-as tag naming it. */
  lemma OpenTagsShape(t: Option<string>)
    ensures |OpenTags(t)| >= 7 && OpenTags(t)[..7] == Speak
    ensures HasStyle(t) ==>
              |OpenTags(t)| == 27 + |t.value| && OpenTags(t)[7..25] == ExpressAs
              && OpenTags(t)[25..25 + |t.value|] == t.value
  {
    assert |Speak| == 7 && |ExpressAs| == 18;
    if HasStyle(t) {
      var o := Speak + ExpressAs + t.value + "\">";
      assert OpenTags(t) == o;
      assert o[..7] == Speak && o[7..25] == ExpressAs && o[25..25 + |t.value|] == t.value;
    } else {
      assert OpenTags(t) == Speak;
    }
  }

  /** The closing tags end with `</speak>`, preceded, for a style, by the closing express-as tag. */
  lemma CloseTagsShape(t: Option<string>)
    ensures |CloseTags(t)| >= 8 && CloseTags(t)[|CloseTags(t)| - 8..] == SpeakEnd
    ensures HasStyle(t) ==> |CloseTags(t)| == 21 && CloseTags(t)[..13] == ExpressEnd
  {
    assert |SpeakEnd| == 8 && |ExpressEnd| == 13;
    if HasStyle(t) {
      var c := ExpressEnd + SpeakEnd;
      assert CloseTags(t) == c;
      assert c[..13] == ExpressEnd && c[13..] == SpeakEnd;
    } else {
      assert CloseTags(t) == SpeakEnd;
    }
  }

  /** `wrap_text(s, t)`: the text between the opening and the closing tags. */
  function WrapText(s: string, t: Option<string>): (r: string)
    ensures |r| == |OpenTags(t)| + |s| + |CloseTags(t)|
    ensures r[..|OpenTags(t)|] == OpenTags(t) && r[|r| - |CloseTags(t)|..] == CloseTags(t)
    ensures r[..7] == Speak && r[|r| - 8..] == SpeakEnd
    ensures HasStyle(t) ==>
              r[7..25] == ExpressAs && r[25..25 + |t.value|] == t.value
              && r[|r| - 21..|r| - 8] == ExpressEnd
    ensures Unwrap(r, t) == s
  {
    WrappedParts(s, t);
    WrappedSpeak(s, t);
    WrappedStyle(s, t);
    OpenTags(t) + s + CloseTags(t)
  }

  /** The wrapped text is the opening tags, the text and the closing tags, found again at their
      places. */
  lemma WrappedParts(s: string, t: Option<string>)
    ensures |OpenTags(t)| + |CloseTags(t)| <= |OpenTags(t) + s + CloseTags(t)|
    ensures |OpenTags(t) + s + CloseTags(t)| == |OpenTags(t)| + |s| + |CloseTags(t)|
    ensures (OpenTags(t) + s + CloseTags(t))[..|OpenTags(t)|] == OpenTags(t)
    ensures (OpenTags(t) + s + CloseTags(t))[|OpenTags(t) + s + CloseTags(t)| - |CloseTags(t)|..] == CloseTags(t)
    ensures Unwrap(OpenTags(t) + s + CloseTags(t), t) == s
  {
    Sandwich(OpenTags(t), s, CloseTags(t));
  }

  /** The wrapped text opens with `<speak>` and closes with `</speak>`. */
  lemma WrappedSpeak(s: string, t: Option<string>)
    ensures |OpenTags(t) + s + CloseTags(t)| >= 8
    ensures (OpenTags(t) + s + CloseTags(t))[..7] == Speak
    ensures (OpenTags(t) + s + CloseTags(t))[|OpenTags(t) + s + CloseTags(t)| - 8..] == SpeakEnd
  {
    OpenTagsShape(t);
    CloseTagsShape(t);
    assert |Speak| == 7 && |SpeakEnd| == 8;
    EndsKept(OpenTags(t), s, CloseTags(t), Speak, SpeakEnd);
  }

  /** A prefix of `o` starts `o + s + c`, and a suffix of `c` ends it. */
  lemma EndsKept(o: string, s: string, c: string, p: string, q: string)
    requires |p| <= |o| && o[..|p|] == p && |q| <= |c| && c[|c| - |q|..] == q
    ensures |o + s + c| >= |p| + |q|
    ensures (o + s + c)[..|p|] == p && (o + s + c)[|o + s + c| - |q|..] == q
  {
    var r := o + s + c;
    forall k | 0 <= k < |p| ensures r[k] == p[k] {
      assert p[k] == o[..|p|][k];
    }
    forall k | 0 <= k < |q| ensures r[|r| - |q| + k] == q[k] {
      assert q[k] == c[|c| - |q|..][k];
    }
  }

  /** With a style, the express-as tag naming it follows `<speak>`, and the closing express-as
      tag precedes `</speak>`. */
  lemma WrappedStyle(s: string, t: Option<string>)
    ensures HasStyle(t) ==> |OpenTags(t) + s + CloseTags(t)| >= 27 + |t.value| + 21
    ensures HasStyle(t) ==> (OpenTags(t) + s + CloseTags(t))[7..25] == ExpressAs
    ensures HasStyle(t) ==> (OpenTags(t) + s + CloseTags(t))[25..25 + |t.value|] == t.value
    ensures HasStyle(t) ==>
              (OpenTags(t) + s + CloseTags(t))[|OpenTags(t) + s + CloseTags(t)| - 21..|OpenTags(t) + s + CloseTags(t)| - 8]
              == ExpressEnd
  {
    if HasStyle(t) {
      var o, c := OpenTags(t), CloseTags(t);
      OpenTagsShape(t);
      CloseTagsShape(t);
      var r := o + s + c;
      Sandwich(o, s, c);
      PrefixPart(r, o, 7, 25);
      PrefixPart(r, o, 25, 25 + |t.value|);
      SuffixPart(r, c, 0, 13);
    }
  }

  /** The three parts of `o + s + c` are found again at their places. */
  lemma Sandwich(o: string, s: string, c: string)
    ensures |o + s + c| == |o| + |s| + |c|
    ensures (o + s + c)[..|o|] == o && (o + s + c)[|o|..|o| + |s|] == s
    ensures (o + s + c)[|o + s + c| - |c|..] == c
  {
  }

  /** A slice of a prefix of `r` is the same slice of `r`. */
  lemma PrefixPart(r: string, o: string, i: nat, j: nat)
    requires |o| <= |r| && r[..|o|] == o
    ensures i <= j <= |o| ==> r[i..j] == o[i..j]
  {
    if i <= j <= |o| {
      forall k | i <= k < j ensures r[k] == o[k] {
        assert o[k] == r[..|o|][k];
      }
    }
  }

  /** A slice of a suffix of `r` is the matching slice of `r`. */
  lemma SuffixPart(r: string, c: string, i: nat, j: nat)
    requires |c| <= |r| && r[|r| - |c|..] == c
    ensures i <= j <= |c| ==> r[|r| - |c| + i..|r| - |c| + j] == c[i..j]
  {
    if i <= j <= |c| {
      forall k | i <= k < j ensures r[|r| - |c| + k] == c[k] {
        assert c[k] == r[|r| - |c|..][k];
      }
    }
  }

  /** The text between the tags `wrap_text` adds for style `t`. */
  function Unwrap(r: string, t: Option<string>): string
    requires |OpenTags(t)| + |CloseTags(t)| <= |r|
  {
    r[|OpenTags(t)|..|r| - |CloseTags(t)|]
  }

  /** The word `englishify` puts before the last item. */
  function Conjunction(conj: bool): string {
    if conj then "and" else "or"
  }

  /** `englishify(l, conj)`. The three-or-more branch indexes the last element of the copy, so an
      empty list raises IndexError. */
  function Englishify(l: seq<string>, conj: bool): (r: Result<string>)
    ensures r.Err? <==> l == []
    ensures r.Err? ==> r.error == IndexError
  {
    if |l| == 1 then Ok(l[0])
    else if |l| == 2 then Ok(if conj then Join(" and ", l) else Join(" or ", l))
    else if l == [] then Err(IndexError)
    else
      var copy := l[|l| - 1 := Conjunction(conj) + " " + l[|l| - 1]];
      Ok(Join(", ", copy))
  }

  /** The natural-English list starts with the first item and ends with the last. */
  lemma EnglishifyEnds(l: seq<string>, conj: bool)
    requires l != []
    ensures |l[0]| <= |Englishify(l, conj).value| && Englishify(l, conj).value[..|l[0]|] == l[0]
    ensures |l[|l| - 1]| <= |Englishify(l, conj).value|
    ensures Englishify(l, conj).value[|Englishify(l, conj).value| - |l[|l| - 1]|..] == l[|l| - 1]
  {
    if |l| == 2 {
      JoinEnds(if conj then " and " else " or ", l);
    } else if |l| > 2 {
      var n := |l| - 1;
      var copy := l[n := Conjunction(conj) + " " + l[n]];
      JoinEnds(", ", copy);
      var r := Join(", ", copy);
      assert r[|r| - |l[n]|..] == copy[n][|copy[n]| - |l[n]|..];
    }
  }

  /** Two items are joined by the conjunction between spaces. */
  lemma EnglishifyPair(l: seq<string>, conj: bool)
    requires |l| == 2
    ensures Englishify(l, conj) == Ok(l[0] + " " + Conjunction(conj) + " " + l[1])
  {
    assert " and " == " " + "and" + " ";
    assert " or " == " " + "or" + " ";
    assert Join(" " + Conjunction(conj) + " ", l) == l[0] + " " + Conjunction(conj) + " " + l[1];
  }

  /** Three or more items are comma-separated, with the conjunction before the last. */
  lemma EnglishifyMany(l: seq<string>, conj: bool)
    requires |l| >= 3
    ensures Englishify(l, conj) == Ok(Join(", ", l[..|l| - 1]) + ", " + Conjunction(conj) + " " + l[|l| - 1])
  {
    var n := |l| - 1;
    var last := Conjunction(conj) + " " + l[n];
    var copy := l[n := last];
    assert copy == l[..n] + [last];
    JoinSnoc(", ", l[..n], last);
    assert Englishify(l, conj) == Ok(Join(", ", copy));
    assert Join(", ", l[..n]) + ", " + last == Join(", ", l[..n]) + ", " + Conjunction(conj) + " " + l[n];
  }

  /** `englishify` reads as an English list: one item as it is, two joined by the conjunction,
      more comma-separated with the conjunction before the last item. */
  lemma EnglishifyNatural(l: seq<string>, conj: bool)
    requires l != []
    ensures |l| == 1 ==> Englishify(l, conj) == Ok(l[0])
    ensures |l| == 2 ==> Englishify(l, conj) == Ok(l[0] + " " + Conjunction(conj) + " " + l[1])
    ensures |l| >= 3 ==>
      Englishify(l, conj) == Ok(Join(", ", l[..|l| - 1]) + ", " + Conjunction(conj) + " " + l[|l| - 1])
  {
    if |l| == 2 {
      EnglishifyPair(l, conj);
    } else if |l| >= 3 {
      EnglishifyMany(l, conj);
    }
  }
}
