/** The few Python string operations the handlers rely on: `str.split()`
    (runs of whitespace), `str.strip()`, `str.split(',')` and the substring
    test behind `column.contains(q)`. */
module Text {

  /** Python's `str.isspace()` on one character: the characters `str.split()`
      and `str.strip()` treat as whitespace. */
  predicate IsSpace(c: char) {
    || c == ' '
    || ('\t' <= c <= '\r')             // \t \n \x0b \x0c \r
    || ('\U{1c}' <= c <= '\U{1f}')     // file, group, record and unit separators
    || c == '\U{85}' || c == '\U{a0}' || c == '\U{1680}'
    || ('\U{2000}' <= c <= '\U{200a}')
    || c == '\U{2028}' || c == '\U{2029}' || c == '\U{202f}' || c == '\U{205f}' || c == '\U{3000}'
  }

  predicate NoSpace(s: string) {
    forall i :: 0 <= i < |s| ==> !IsSpace(s[i])
  }

  predicate AllSpace(s: string) {
    forall i :: 0 <= i < |s| ==> IsSpace(s[i])
  }

  // ---------------------------------------------------------------------
  // str.split() with no argument

  /** Length of the longest whitespace-free prefix of `s`. */
  function WordEnd(s: string): (n: nat)
    ensures n <= |s| && NoSpace(s[..n])
    ensures n < |s| ==> IsSpace(s[n])
    ensures s != [] && !IsSpace(s[0]) ==> 1 <= n
  {
    if s == [] || IsSpace(s[0]) then 0
    else
      var m := WordEnd(s[1..]);
      assert s[..1 + m] == [s[0]] + s[1..][..m];
      1 + m
  }

  /** `s.split()`: the maximal runs of non-whitespace, in order. */
  function Words(s: string): (ws: seq<string>)
    ensures forall w :: w in ws ==> w != [] && NoSpace(w)
    decreases |s|
  {
    if s == [] then []
    else if IsSpace(s[0]) then Words(s[1..])
    else
      var n := WordEnd(s);
      [s[..n]] + Words(s[n..])
  }

  /** Position `i` of `s` begins a word: a non-space at the start or after a space. */
  predicate WordStart(s: string, i: nat)
    requires i < |s|
  {
    !IsSpace(s[i]) && (i == 0 || IsSpace(s[i - 1]))
  }

  /** The positions from `lo` on where a word of `s` begins. */
  function WordStartsFrom(s: string, lo: nat): set<nat> {
    set i: nat | lo <= i < |s| && WordStart(s, i)
  }

  /** Where the words of `s` begin. */
  function WordStarts(s: string): set<nat> {
    WordStartsFrom(s, 0)
  }

  /** The number of words beginning in `t`, where `afterSpace` says whether
      `t` is preceded by whitespace or by nothing at all. */
  function StartsIn(t: string, afterSpace: bool): nat {
    if t == [] then 0
    else (if afterSpace && !IsSpace(t[0]) then 1 else 0) + StartsIn(t[1..], IsSpace(t[0]))
  }

  /** A run of `m` non-spaces, entered from inside a word, begins no word. */
  lemma {:induction false} SkipWord(u: string, m: nat)
    requires m <= |u|
    requires forall i :: 0 <= i < m ==> !IsSpace(u[i])
    ensures StartsIn(u, false) == StartsIn(u[m..], false)
    decreases m
  {
    if m > 0 {
      assert u[1..][m - 1..] == u[m..];
      SkipWord(u[1..], m - 1);
    }
  }

  /** `str.split()` finds one word per word start. */
  lemma {:induction false} WordsStartsIn(t: string)
    ensures |Words(t)| == StartsIn(t, true)
    decreases |t|
  {
    if t == [] {
    } else if IsSpace(t[0]) {
      WordsStartsIn(t[1..]);
    } else {
      var n := WordEnd(t);
      assert t[1..][n - 1..] == t[n..];
      forall i | 0 <= i < n - 1
        ensures !IsSpace(t[1..][i])
      {
        assert t[1..][i] == t[..n][i + 1];
      }
      SkipWord(t[1..], n - 1);
      assert StartsIn(t[n..], false) == StartsIn(t[n..], true);
      WordsStartsIn(t[n..]);
    }
  }

  /** Adding an element not yet present grows a set by one. */
  lemma AddFresh(x: nat, rest: set<nat>)
    requires x !in rest
    ensures |{x} + rest| == |rest| + 1
  {
  }

  /** The word starts from `lo` on: `lo` itself when a word begins there,
      then those from `lo + 1` on. */
  lemma StartsSplit(s: string, lo: nat)
    requires lo < |s|
    ensures |WordStartsFrom(s, lo)|
            == (if WordStart(s, lo) then 1 else 0) + |WordStartsFrom(s, lo + 1)|
  {
    var rest := WordStartsFrom(s, lo + 1);
    if WordStart(s, lo) {
      assert WordStartsFrom(s, lo) == {lo} + rest;
      AddFresh(lo, rest);
    } else {
      assert WordStartsFrom(s, lo) == rest;
    }
  }

  /** StartsIn on the suffix of `s` from `lo` counts the word starts of `s`
      from `lo` on. */
  lemma {:induction false} StartsInIsSize(s: string, lo: nat)
    requires lo <= |s|
    ensures StartsIn(s[lo..], lo == 0 || IsSpace(s[lo - 1])) == |WordStartsFrom(s, lo)|
    decreases |s| - lo
  {
    if lo == |s| {
      assert s[lo..] == [];
      assert WordStartsFrom(s, lo) == {};
    } else {
      assert s[lo..][1..] == s[lo + 1..];
      StartsSplit(s, lo);
      StartsInIsSize(s, lo + 1);
    }
  }

  /** `len(s.split())` is the number of positions where a word begins. */
  lemma WordCount(s: string)
    ensures |Words(s)| == |WordStarts(s)|
  {
    assert s[0..] == s;
    WordsStartsIn(s);
    StartsInIsSize(s, 0);
  }

  /** `' '.join(ws)`: Join with a single space, and "" for no words. */
  function JoinWords(ws: seq<string>): string {
    if ws == [] then "" else Join(ws, ' ')
  }

  lemma {:induction false} WordEndOfWord(w: string, t: string)
    requires w != [] && NoSpace(w)
    requires t == [] || IsSpace(t[0])
    ensures WordEnd(w + t) == |w|
    decreases |w|
  {
    if |w| > 1 {
      assert (w + t)[1..] == w[1..] + t;
      WordEndOfWord(w[1..], t);
    } else {
      assert (w + t)[1..] == t;
    }
  }

  /** Splitting undoes joining with single spaces: `' '.join(ws).split() == ws`
      for whitespace-free, non-empty words. */
  lemma {:induction false} WordsOfJoin(ws: seq<string>)
    requires forall w :: w in ws ==> w != [] && NoSpace(w)
    ensures Words(JoinWords(ws)) == ws
  {
    if |ws| == 1 {
      var w := ws[0];
      assert w in ws;
      WordEndOfWord(w, []);
      assert w + [] == w;
      assert w[|w|..] == [];
    } else if |ws| > 1 {
      var w, rest := ws[0], JoinWords(ws[1..]);
      assert w in ws;
      assert forall v :: v in ws[1..] ==> v in ws;
      var s := w + " " + rest;
      assert JoinWords(ws) == s;
      assert s == w + (" " + rest);
      WordEndOfWord(w, " " + rest);
      assert s[..|w|] == w;
      assert s[|w|..] == " " + rest;
      assert (" " + rest)[1..] == rest;
      WordsOfJoin(ws[1..]);
    }
  }

  // ---------------------------------------------------------------------
  // str.strip()

  /** `s` without its leading whitespace. */
  function TrimLeft(s: string): (r: string)
    ensures |r| <= |s|
    ensures r == [] || !IsSpace(r[0])
  {
    if s == [] || !IsSpace(s[0]) then s else TrimLeft(s[1..])
  }

  /** `s` without its trailing whitespace. */
  function TrimRight(s: string): (r: string)
    ensures |r| <= |s|
    ensures r == [] || !IsSpace(r[|r| - 1])
  {
    if s == [] || !IsSpace(s[|s| - 1]) then s else TrimRight(s[..|s| - 1])
  }

  /** TrimLeft drops a whitespace prefix and keeps the rest as it was. */
  lemma {:induction false} TrimLeftDropsSpace(s: string)
    ensures var r := TrimLeft(s);
            r == s[|s| - |r|..] && AllSpace(s[..|s| - |r|])
    decreases |s|
  {
    if s != [] && IsSpace(s[0]) {
      TrimLeftDropsSpace(s[1..]);
      var r := TrimLeft(s);
      assert s[..|s| - |r|] == [s[0]] + s[1..][..|s[1..]| - |r|];
    }
  }

  /** TrimRight drops a whitespace suffix and keeps the rest as it was. */
  lemma {:induction false} TrimRightDropsSpace(s: string)
    ensures var r := TrimRight(s);
            r == s[..|r|] && AllSpace(s[|r|..])
    decreases |s|
  {
    if s != [] && IsSpace(s[|s| - 1]) {
      TrimRightDropsSpace(s[..|s| - 1]);
      var r := TrimRight(s);
      assert s[|r|..] == s[..|s| - 1][|r|..] + [s[|s| - 1]];
    }
  }

  /** `r` is the slice of `s` starting at `i` with only whitespace around it. */
  predicate StrippedAt(s: string, r: string, i: nat) {
    i + |r| <= |s| && r == s[i..i + |r|] && AllSpace(s[..i]) && AllSpace(s[i + |r|..])
  }

  lemma TrimBoth(s: string, l: string, r: string)
    requires |l| <= |s| && l == s[|s| - |l|..] && AllSpace(s[..|s| - |l|])
    requires |r| <= |l| && r == l[..|r|] && AllSpace(l[|r|..])
    ensures StrippedAt(s, r, |s| - |l|)
  {
    var i := |s| - |l|;
    assert r == s[i..i + |r|];
    assert s[i + |r|..] == l[|r|..];
  }

  /** `s.strip()`: `s` without its leading and trailing whitespace. */
  function Strip(s: string): (r: string)
    ensures r == [] || (!IsSpace(r[0]) && !IsSpace(r[|r| - 1]))
  {
    TrimRightDropsSpace(TrimLeft(s));
    TrimRight(TrimLeft(s))
  }

  /** What strip removes is whitespace only, on both ends of one slice. */
  lemma StripIsSlice(s: string)
    ensures exists i: nat :: StrippedAt(s, Strip(s), i)
  {
    TrimLeftDropsSpace(s);
    TrimRightDropsSpace(TrimLeft(s));
    TrimBoth(s, TrimLeft(s), Strip(s));
  }

  /** Stripping twice is stripping once. */
  lemma StripIdempotent(s: string)
    ensures Strip(Strip(s)) == Strip(s)
  {
    var r := Strip(s);
    assert TrimLeft(r) == r;
    assert TrimRight(r) == r;
  }

  // ---------------------------------------------------------------------
  // str.split(sep)

  /** `s.split(sep)`: the pieces between occurrences of `sep`, empty pieces
      included; the empty string gives one empty piece. */
  function Split(s: string, sep: char): (parts: seq<string>)
    ensures |parts| >= 1
    ensures forall p :: p in parts ==> sep !in p
  {
    if s == [] then [""]
    else
      var rest := Split(s[1..], sep);
      if s[0] == sep then [""] + rest
      else [[s[0]] + rest[0]] + rest[1..]
  }

  /** `sep.join(parts)`. */
  function Join(parts: seq<string>, sep: char): string
    requires |parts| >= 1
  {
    if |parts| == 1 then parts[0]
    else parts[0] + [sep] + Join(parts[1..], sep)
  }

  /** Joining the pieces gives back the string. */
  lemma {:induction false} JoinSplit(s: string, sep: char)
    ensures Join(Split(s, sep), sep) == s
  {
    if s != [] {
      var rest := Split(s[1..], sep);
      JoinSplit(s[1..], sep);
      var parts := Split(s, sep);
      if s[0] == sep {
        assert parts[1..] == rest;
        assert s == [sep] + s[1..];
      } else if |rest| == 1 {
        assert s == [s[0]] + s[1..];
      } else {
        assert parts[1..] == rest[1..];
        assert s == [s[0]] + s[1..];
      }
    }
  }

  lemma {:induction false} SplitPiece(w: string, sep: char)
    requires sep !in w
    ensures Split(w, sep) == [w]
  {
    if w != [] {
      SplitPiece(w[1..], sep);
      assert w == [w[0]] + w[1..];
    }
  }

  lemma {:induction false} SplitAfterPiece(w: string, t: string, sep: char)
    requires sep !in w
    ensures Split(w + [sep] + t, sep) == [w] + Split(t, sep)
  {
    var s := w + [sep] + t;
    if w == [] {
      assert s[1..] == t;
    } else {
      assert s[1..] == w[1..] + [sep] + t;
      SplitAfterPiece(w[1..], t, sep);
      assert w == [w[0]] + w[1..];
    }
  }

  /** Splitting the joined pieces gives back the pieces, when none holds `sep`. */
  lemma {:induction false} SplitJoin(parts: seq<string>, sep: char)
    requires |parts| >= 1
    requires forall p :: p in parts ==> sep !in p
    ensures Split(Join(parts, sep), sep) == parts
  {
    if |parts| == 1 {
      SplitPiece(parts[0], sep);
    } else {
      SplitJoin(parts[1..], sep);
      SplitAfterPiece(parts[0], Join(parts[1..], sep), sep);
    }
  }

  // ---------------------------------------------------------------------
  // substring test

  /** `q` occurs in `s` at position `i`. */
  predicate OccursAt(s: string, q: string, i: nat) {
    i + |q| <= |s| && s[i..i + |q|] == q
  }

  /** `q` occurs in `s`. */
  predicate Contains(s: string, q: string)
    ensures q == [] ==> Contains(s, q)
    ensures Contains(s, q) ==> |q| <= |s|
  {
    q <= s || (s != [] && Contains(s[1..], q))
  }

  /** An occurrence at position 0 is a prefix. */
  lemma OccursAtStart(s: string, q: string)
    ensures OccursAt(s, q, 0) <==> q <= s
  {
    if q <= s {
      assert s[0..|q|] == q;
    }
  }

  /** Dropping the first character moves every later occurrence one place left. */
  lemma OccursAfterFirst(s: string, q: string, i: nat)
    requires s != []
    ensures OccursAt(s[1..], q, i) <==> OccursAt(s, q, i + 1)
  {
    if i + 1 + |q| <= |s| {
      assert s[1..][i..i + |q|] == s[i + 1..i + 1 + |q|];
    }
  }

  /** Contains is exactly "q is a contiguous slice of s". */
  lemma {:induction false} ContainsIff(s: string, q: string)
    ensures Contains(s, q) <==> exists i: nat :: OccursAt(s, q, i)
  {
    OccursAtStart(s, q);
    if q <= s {
    } else if s == [] {
    } else {
      ContainsIff(s[1..], q);
      if Contains(s[1..], q) {
        var i: nat :| OccursAt(s[1..], q, i);
        OccursAfterFirst(s, q, i);
      }
      if exists i: nat :: OccursAt(s, q, i) {
        var i: nat :| OccursAt(s, q, i);
        OccursAfterFirst(s, q, i - 1);
      }
    }
  }
}
