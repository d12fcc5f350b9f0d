/** The Python 2 `str` methods the modelled code relies on: `lower`, `split`, `join`. */
module PyText {

  /** Python 2 `str.isspace` for one character of a byte string. */
  predicate IsSpace(c: char) {
    c == ' ' || c == '\t' || c == '\n' || c == '\r' || c == '\U{0B}' || c == '\U{0C}'
  }

  /** Python 2 `str.lower` on one character: only ASCII letters change. */
  function LowerChar(c: char): char {
    if 'A' <= c <= 'Z' then (c as int + 32) as char else c
  }

  /** `s.lower()`: the same characters with no ASCII capital left. */
  function Lower(s: string): (r: string)
    ensures |r| == |s|
    ensures forall i :: 0 <= i < |s| ==> r[i] == LowerChar(s[i])
    ensures forall i :: 0 <= i < |r| ==> !('A' <= r[i] <= 'Z')
  {
    seq(|s|, i requires 0 <= i < |s| => LowerChar(s[i]))
  }

  /** Length of the run of non-space characters that starts `s`. */
  function WordLength(s: string): (n: nat)
    ensures n <= |s|
    ensures forall i :: 0 <= i < n ==> !IsSpace(s[i])
    ensures n < |s| ==> IsSpace(s[n])
  {
    if s == [] || IsSpace(s[0]) then 0 else 1 + WordLength(s[1..])
  }

  /** `s.split()` with no separator: the maximal runs of non-space characters, in order. */
  function Words(s: string): (r: seq<string>)
    ensures forall i :: 0 <= i < |r| ==> r[i] != []
    ensures forall i, j :: 0 <= i < |r| && 0 <= j < |r[i]| ==> !IsSpace(r[i][j])
    decreases |s|
  {
    if s == [] then []
    else if IsSpace(s[0]) then Words(s[1..])
    else
      var n := WordLength(s);
      [s[..n]] + Words(s[n..])
  }

  /** `s[a..b]` is a maximal run of non-space characters of `s`. */
  ghost predicate RunAt(s: string, a: int, b: int) {
    0 <= a < b <= |s| && (forall m :: a <= m < b ==> !IsSpace(s[m]))
    && (a == 0 || IsSpace(s[a - 1])) && (b == |s| || IsSpace(s[b]))
  }

  /** The concatenation of a list of strings. */
  function Concat(xs: seq<string>): string {
    if xs == [] then "" else xs[0] + Concat(xs[1..])
  }

  /** The non-space characters of `s`, in order. */
  function NonSpace(s: string): string {
    if s == [] then "" else (if IsSpace(s[0]) then "" else [s[0]]) + NonSpace(s[1..])
  }

  /** `w` is one of the maximal runs of non-space characters of `s`. */
  ghost predicate IsRun(s: string, w: string) {
    exists a, b :: RunAt(s, a, b) && w == s[a..b]
  }

  /** Cutting `s` after a space shifts its runs by the length of the cut. */
  lemma RunShift(s: string, k: nat, a: int, b: int)
    requires 0 < k <= |s| && IsSpace(s[k - 1]) && a >= 0
    ensures RunAt(s[k..], a, b) <==> RunAt(s, a + k, b + k)
    ensures RunAt(s[k..], a, b) ==> s[k..][a..b] == s[a + k..b + k]
  {
    var t := s[k..];
    if a < b <= |t| {
      forall m | a <= m < b ensures t[m] == s[m + k] { }
      if a > 0 { assert t[a - 1] == s[a - 1 + k]; }
      if b < |t| { assert t[b] == s[b + k]; }
    }
  }

  /** A run of the whole string after a space is a run of what follows the space. */
  lemma RunUnshift(s: string, k: nat, a: int, b: int)
    requires 0 < k <= |s| && IsSpace(s[k - 1]) && a >= k && RunAt(s, a, b)
    ensures RunAt(s[k..], a - k, b - k) && s[k..][a - k..b - k] == s[a..b]
  {
    RunShift(s, k, a - k, b - k);
  }

  /** A run of what follows a space is a run of the whole string. */
  lemma IsRunShift(s: string, k: nat, w: string)
    requires 0 < k <= |s| && IsSpace(s[k - 1]) && IsRun(s[k..], w)
    ensures IsRun(s, w)
  {
    var a, b :| RunAt(s[k..], a, b) && w == s[k..][a..b];
    RunShift(s, k, a, b);
  }

  /** A run of non-space characters at the front of `s` stays at the front of `NonSpace(s)`. */
  lemma {:induction false} NonSpaceRun(s: string, n: nat)
    requires n <= |s| && forall i :: 0 <= i < n ==> !IsSpace(s[i])
    ensures NonSpace(s) == s[..n] + NonSpace(s[n..])
  {
    if n > 0 {
      NonSpaceRun(s[1..], n - 1);
      assert s[1..][..n - 1] == s[1..n] && s[1..][n - 1..] == s[n..];
      assert [s[0]] + s[1..n] == s[..n];
    }
  }

  /** How `s.split()` peels off its first word: a word of `WordLength(s)` characters, then the
      words after the space that ends it. */
  lemma WordsUnfold(s: string)
    requires s != [] && !IsSpace(s[0]) && WordLength(s) < |s|
    ensures Words(s) == [s[..WordLength(s)]] + Words(s[WordLength(s) + 1..])
    ensures NonSpace(s[WordLength(s)..]) == NonSpace(s[WordLength(s) + 1..])
  {
    var n := WordLength(s);
    assert s[n..][1..] == s[n + 1..];
  }

  /** `s.split()` of a string that starts with a word begins with that word, and is that word
      alone when nothing follows it. */
  lemma WordsFirst(s: string)
    requires s != [] && !IsSpace(s[0])
    ensures |Words(s)| >= 1 && Words(s)[0] == s[..WordLength(s)]
    ensures WordLength(s) == |s| ==> |Words(s)| == 1
  {
    if WordLength(s) == |s| {
      assert s[WordLength(s)..] == [];
    }
  }

  /** Every piece of `s.split()` is a maximal run of non-space characters of `s`. */
  lemma {:induction false} WordsSound(s: string, i: nat)
    requires i < |Words(s)|
    ensures IsRun(s, Words(s)[i])
    decreases |s|
  {
    assert s != [];
    if IsSpace(s[0]) {
      assert Words(s) == Words(s[1..]);
      WordsSound(s[1..], i);
      IsRunShift(s, 1, Words(s[1..])[i]);
    } else {
      var n := WordLength(s);
      WordsFirst(s);
      if i == 0 {
        assert RunAt(s, 0, n) && s[..n] == s[0..n];
      } else {
        WordsUnfold(s);
        var t := s[n + 1..];
        assert Words(s)[i] == Words(t)[i - 1];
        WordsSound(t, i - 1);
        IsRunShift(s, n + 1, Words(t)[i - 1]);
      }
    }
  }

  /** In a string that starts with a word, the run at the front is that word and every other
      run starts after the space that ends it. */
  lemma RunAfterWord(s: string, a: int, b: int)
    requires s != [] && !IsSpace(s[0]) && RunAt(s, a, b)
    ensures a == 0 ==> b == WordLength(s)
    ensures a > 0 ==> a > WordLength(s)
  {
  }

  /** A piece of the split of what follows a leading space is a piece of the split of `s`. */
  lemma WordsAfterSpace(s: string, w: string)
    requires s != [] && IsSpace(s[0]) && w in Words(s[1..])
    ensures w in Words(s)
  {
  }

  /** A piece of the split of what follows the first word and its space is a piece of the
      split of `s`. */
  lemma WordsAfterWord(s: string, w: string)
    requires s != [] && !IsSpace(s[0]) && WordLength(s) < |s| && w in Words(s[WordLength(s) + 1..])
    ensures w in Words(s)
  {
    WordsUnfold(s);
  }

  /** Every maximal run of non-space characters of `s` is a piece of `s.split()`. */
  lemma {:induction false} WordsComplete(s: string, a: int, b: int)
    requires RunAt(s, a, b)
    ensures s[a..b] in Words(s)
    decreases |s|
  {
    if IsSpace(s[0]) {
      RunUnshift(s, 1, a, b);
      WordsComplete(s[1..], a - 1, b - 1);
      WordsAfterSpace(s, s[a..b]);
    } else {
      var n := WordLength(s);
      RunAfterWord(s, a, b);
      if a == 0 {
        WordsFirst(s);
        assert s[a..b] == Words(s)[0];
      } else {
        var k := n + 1;
        RunUnshift(s, k, a, b);
        WordsComplete(s[k..], a - k, b - k);
        WordsAfterWord(s, s[a..b]);
      }
    }
  }

  /** The pieces of `s.split()` put together are the non-space characters of `s`, in order. */
  lemma {:induction false} WordsConcat(s: string)
    ensures Concat(Words(s)) == NonSpace(s)
    decreases |s|
  {
    if s == [] {
    } else if IsSpace(s[0]) {
      WordsConcat(s[1..]);
    } else {
      var n := WordLength(s);
      NonSpaceRun(s, n);
      if n < |s| {
        WordsUnfold(s);
        WordsConcat(s[n + 1..]);
        assert ([s[..n]] + Words(s[n + 1..]))[1..] == Words(s[n + 1..]);
      } else {
        assert Words(s) == [s[..n]];
        assert s[n..] == [];
        assert Concat(Words(s)) == s[..n] + Concat([]);
      }
    }
  }

  /** `s.split()` is exactly the maximal runs of non-space characters of `s`, in order: every
      piece is such a run, every such run is a piece, and the pieces put together are the
      non-space characters of `s`. */
  lemma WordsAreRuns(s: string)
    ensures forall i :: 0 <= i < |Words(s)| ==> IsRun(s, Words(s)[i])
    ensures forall a, b :: RunAt(s, a, b) ==> s[a..b] in Words(s)
    ensures Concat(Words(s)) == NonSpace(s)
  {
    forall i | 0 <= i < |Words(s)| ensures IsRun(s, Words(s)[i]) {
      WordsSound(s, i);
    }
    forall a, b | RunAt(s, a, b) ensures s[a..b] in Words(s) {
      WordsComplete(s, a, b);
    }
    WordsConcat(s);
  }

  /** `sep.join(xs)`. */
  function Join(sep: string, xs: seq<string>): string {
    if xs == [] then ""
    else if |xs| == 1 then xs[0]
    else xs[0] + sep + Join(sep, xs[1..])
  }

  /** A joined string starts with the first piece and ends with the last. */
  lemma {:induction false} JoinEnds(sep: string, xs: seq<string>)
    requires xs != []
    ensures |xs[0]| <= |Join(sep, xs)| && Join(sep, xs)[..|xs[0]|] == xs[0]
    ensures |xs[|xs| - 1]| <= |Join(sep, xs)| && Join(sep, xs)[|Join(sep, xs)| - |xs[|xs| - 1]|..] == xs[|xs| - 1]
  {
    if |xs| > 1 {
      JoinEnds(sep, xs[1..]);
      var r, t := Join(sep, xs), Join(sep, xs[1..]);
      assert r == xs[0] + sep + t;
      assert xs[1..][|xs[1..]| - 1] == xs[|xs| - 1];
      assert r[|r| - |xs[|xs| - 1]|..] == t[|t| - |xs[|xs| - 1]|..];
    }
  }

  /** Joining after appending one more piece puts one separator before it. */
  lemma {:induction false} JoinSnoc(sep: string, xs: seq<string>, x: string)
    ensures Join(sep, xs + [x]) == if xs == [] then x else Join(sep, xs) + sep + x
  {
    if |xs| > 1 {
      assert (xs + [x])[1..] == xs[1..] + [x];
      JoinSnoc(sep, xs[1..], x);
    } else if |xs| == 1 {
      assert (xs + [x])[1..] == [x];
    }
  }

  /** `s.split(c)` with an explicit separator: empty pieces are kept, so there is always one more
      piece than there are occurrences of `c`. */
  function SplitOn(s: string, c: char): (r: seq<string>)
    ensures |r| >= 1
    ensures forall i, j :: 0 <= i < |r| && 0 <= j < |r[i]| ==> r[i][j] != c
    decreases |s|
  {
    if s == [] then [""]
    else if s[0] == c then [""] + SplitOn(s[1..], c)
    else
      var rest := SplitOn(s[1..], c);
      [[s[0]] + rest[0]] + rest[1..]
  }

  /** Every occurrence of `c` in `s` replaced by `d`. */
  function Replace(s: string, c: char, d: char): (r: string)
    ensures |r| == |s|
    ensures forall i :: 0 <= i < |s| ==> r[i] == if s[i] == c then d else s[i]
  {
    seq(|s|, i requires 0 <= i < |s| => if s[i] == c then d else s[i])
  }

  /** Joining a piece in front of a non-empty list puts one separator after it. */
  lemma JoinCons(sep: string, x: string, xs: seq<string>)
    requires xs != []
    ensures Join(sep, [x] + xs) == x + sep + Join(sep, xs)
  {
    assert ([x] + xs)[1..] == xs;
  }

  /** Gluing a prefix onto the first piece glues it onto the joined string. */
  lemma JoinPrefixFirst(sep: string, a: string, xs: seq<string>)
    requires xs != []
    ensures Join(sep, [a + xs[0]] + xs[1..]) == a + Join(sep, xs)
  {
    if |xs| > 1 {
      JoinCons(sep, a + xs[0], xs[1..]);
      JoinCons(sep, xs[0], xs[1..]);
      assert [xs[0]] + xs[1..] == xs;
    }
  }

  /** `d.join(s.split(c))` replaces each `c` by `d`, one for one. */
  lemma {:induction false} JoinSplitIsReplace(s: string, c: char, d: char)
    ensures Join([d], SplitOn(s, c)) == Replace(s, c, d)
  {
    if s != [] {
      var rest := SplitOn(s[1..], c);
      JoinSplitIsReplace(s[1..], c, d);
      assert Replace(s, c, d) == [if s[0] == c then d else s[0]] + Replace(s[1..], c, d);
      if s[0] == c {
        JoinCons([d], "", rest);
      } else {
        JoinPrefixFirst([d], [s[0]], rest);
      }
    }
  }

  /** Splitting at `c` and joining the pieces with `c` gives back the string. */
  lemma SplitJoinRoundTrip(s: string, c: char)
    ensures Join([c], SplitOn(s, c)) == s
  {
    JoinSplitIsReplace(s, c, c);
    assert Replace(s, c, c) == s;
  }
}
