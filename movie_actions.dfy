/** `inList` of movie_actions.py: finding which phrase of a list an utterance names. The stemmer
    is a parameter, `stem`; nothing is assumed about it. */
module MovieActions {
  import opened Wrappers
  import opened PyText

  /** `lst.index(x)`: the first position holding `x`. */
  function IndexOf(lst: seq<string>, x: string): (i: nat)
    requires x in lst
    ensures i < |lst| && lst[i] == x
    ensures forall j :: 0 <= j < i ==> lst[j] != x
  {
    if lst[0] == x then 0 else 1 + IndexOf(lst[1..], x)
  }

  /** The utterance is the i-th phrase, ignoring case. */
  predicate ExactAt(lst: seq<string>, s: string, i: nat)
    requires i < |lst|
  {
    Lower(s) == Lower(lst[i])
  }

  /** "quit" is one of the utterance's words. */
  predicate SaysQuit(s: string) {
    "quit" in Words(Lower(s))
  }

  /** The stems of the utterance's lower-cased words, in order. */
  function StemmedWords(s: string, stem: string -> string): (r: seq<string>)
    ensures |r| == |Words(Lower(s))|
  {
    var ws := Words(Lower(s));
    seq(|ws|, i requires 0 <= i < |ws| => stem(ws[i]))
  }

  /** Every lower-cased word of the i-th phrase has its stem among the utterance's stems. */
  predicate CoveredAt(lst: seq<string>, s: string, stem: string -> string, i: nat)
    requires i < |lst|
  {
    var words := Words(Lower(lst[i]));
    forall j :: 0 <= j < |words| ==> stem(words[j]) in StemmedWords(s, stem)
  }

  /** `inList(lst, s)`. The result is `Some(k)` for an index or -1, and `None` for "quit": the
      first exact case-insensitive match wins; failing that, "quit" stops the search; failing
      that, the first phrase all of whose stemmed words the utterance contains; else -1. */
  method InList(lst: seq<string>, s: string, stem: string -> string) returns (r: Option<int>)
    ensures r == None || r == Some(-1) || (r.Some? && 0 <= r.value < |lst|)
    ensures r.Some? && r.value >= 0 ==>
              r.value < |lst| && (ExactAt(lst, s, r.value) || CoveredAt(lst, s, stem, r.value))
    ensures (exists i :: 0 <= i < |lst| && ExactAt(lst, s, i)) ==>
              r.Some? && 0 <= r.value < |lst| && ExactAt(lst, s, r.value)
              && forall j :: 0 <= j < r.value ==> !ExactAt(lst, s, j)
    ensures (forall i :: 0 <= i < |lst| ==> !ExactAt(lst, s, i)) ==>
              (r == None <==> SaysQuit(s))
    ensures (forall i :: 0 <= i < |lst| ==> !ExactAt(lst, s, i)) && !SaysQuit(s)
            && (exists i :: 0 <= i < |lst| && CoveredAt(lst, s, stem, i)) ==>
              r.Some? && 0 <= r.value < |lst| && CoveredAt(lst, s, stem, r.value)
              && forall j :: 0 <= j < r.value ==> !CoveredAt(lst, s, stem, j)
    ensures r == Some(-1) <==>
              (forall i :: 0 <= i < |lst| ==> !ExactAt(lst, s, i) && !CoveredAt(lst, s, stem, i))
              && !SaysQuit(s)
  {
    var i := 0;
    while i < |lst|
      invariant 0 <= i <= |lst|
      invariant forall j :: 0 <= j < i ==> !ExactAt(lst, s, j)
    {
      if Lower(s) == Lower(lst[i]) {
        forall j | 0 <= j < i ensures lst[j] != lst[i] {
          assert !ExactAt(lst, s, j);
        }
        return Some(IndexOf(lst, lst[i]));
      }
      i := i + 1;
    }
    var said := Words(Lower(s));
    if "quit" in said {
      return None;
    }
    var temp := [];
    var k := 0;
    while k < |said|
      invariant 0 <= k <= |said|
      invariant temp == StemmedWords(s, stem)[..k]
    {
      temp := temp + [stem(said[k])];
      k := k + 1;
    }
    assert temp == StemmedWords(s, stem);
    i := 0;
    while i < |lst|
      invariant 0 <= i <= |lst|
      invariant forall j :: 0 <= j < i ==> !CoveredAt(lst, s, stem, j)
    {
      var count := 0;
      var words := Words(Lower(lst[i]));
      var m := 0;
      while m < |words|
        invariant 0 <= count <= m <= |words|
        invariant count == m <==> forall j :: 0 <= j < m ==> stem(words[j]) in temp
      {
        if stem(words[m]) in temp {
          count := count + 1;
        }
        m := m + 1;
      }
      if count == |words| {
        forall j | 0 <= j < i ensures lst[j] != lst[i] {
          assert !CoveredAt(lst, s, stem, j);
        }
        return Some(IndexOf(lst, lst[i]));
      }
      i := i + 1;
    }
    return Some(-1);
  }
}
