/** Text primitives the lexicon handlers rely on: substring search
    (`str::find`, `str::contains`), splitting on a separator (`str::split`)
    and on whitespace (`str::split_whitespace`), and ASCII lower-casing.
    A `string` stands for an ASCII string, so a character index is the byte
    index the handlers slice with. */
module Strings {
  import opened Wrappers

  /** `pat` occurs in `s` starting at index `i`. */
  predicate Occurs(s: string, pat: string, i: int) {
    0 <= i && i + |pat| <= |s| && s[i..i + |pat|] == pat
  }

  /** The first index at or after `k` where `pat` occurs in `s`. */
  function FindFrom(s: string, pat: string, k: nat): (r: Option<nat>)
    ensures r.Some? ==> k <= r.value && Occurs(s, pat, r.value)
    ensures r.Some? ==> forall j :: k <= j < r.value ==> !Occurs(s, pat, j)
    ensures r.None? ==> forall j :: k <= j ==> !Occurs(s, pat, j)
    decreases |s| - k
  {
    if k + |pat| > |s| then None
    else if s[k..k + |pat|] == pat then Some(k)
    else FindFrom(s, pat, k + 1)
  }

  /** `str::find`: the index of the first occurrence of `pat`, if any. */
  function Find(s: string, pat: string): (r: Option<nat>)
    ensures r.Some? ==> Occurs(s, pat, r.value)
    ensures r.Some? ==> forall j :: 0 <= j < r.value ==> !Occurs(s, pat, j)
    ensures r.None? ==> forall j :: !Occurs(s, pat, j)
  {
    FindFrom(s, pat, 0)
  }

  /** `str::contains`: whether `pat` occurs anywhere in `s`. */
  function Contains(s: string, pat: string): (b: bool)
    ensures b <==> exists i :: Occurs(s, pat, i)
  {
    Find(s, pat).Some?
  }

  /** A one-character pattern occurs exactly where that character is. */
  lemma OccursChar(s: string, c: char, i: int)
    ensures Occurs(s, [c], i) <==> 0 <= i < |s| && s[i] == c
  {
    if 0 <= i < |s| {
      assert s[i..i + 1] == [s[i]];
    }
  }

  /** Searching for a one-character pattern finds the first position of
      that character, and finds nothing exactly when it is absent. */
  lemma FindChar(s: string, c: char)
    ensures Find(s, [c]).Some? <==> c in s
    ensures Find(s, [c]).Some? ==>
              var i := Find(s, [c]).value;
              i < |s| && s[i] == c && c !in s[..i]
  {
    var r := Find(s, [c]);
    if r.Some? {
      OccursChar(s, c, r.value);
      forall j | 0 <= j < r.value
        ensures s[j] != c
      {
        OccursChar(s, c, j);
      }
    } else {
      forall j | 0 <= j < |s|
        ensures s[j] != c
      {
        OccursChar(s, c, j);
      }
    }
  }

  /** The parts joined back together, with `sep` between neighbours. */
  function Join(parts: seq<string>, sep: string): string
  {
    if |parts| == 0 then ""
    else if |parts| == 1 then parts[0]
    else parts[0] + sep + Join(parts[1..], sep)
  }

  /** Seven parts joined, written out. */
  lemma JoinSeven(parts: seq<string>, sep: string)
    requires |parts| == 7
    ensures Join(parts, sep) == parts[0] + sep + parts[1] + sep + parts[2] + sep + parts[3] + sep +
                                parts[4] + sep + parts[5] + sep + parts[6]
  {
    assert Join(parts[6..], sep) == parts[6];
    assert Join(parts[5..], sep) == parts[5] + sep + Join(parts[6..], sep) by { assert parts[5..][1..] == parts[6..]; }
    assert Join(parts[4..], sep) == parts[4] + sep + Join(parts[5..], sep) by { assert parts[4..][1..] == parts[5..]; }
    assert Join(parts[3..], sep) == parts[3] + sep + Join(parts[4..], sep) by { assert parts[3..][1..] == parts[4..]; }
    assert Join(parts[2..], sep) == parts[2] + sep + Join(parts[3..], sep) by { assert parts[2..][1..] == parts[3..]; }
    assert Join(parts[1..], sep) == parts[1] + sep + Join(parts[2..], sep) by { assert parts[1..][1..] == parts[2..]; }
  }

  /** `str::split` on a one-character separator: the pieces of `s` between
      occurrences of `sep`, empty pieces included. */
  function Split(s: string, sep: char): (parts: seq<string>)
    ensures |parts| >= 1
    decreases |s|
  {
    match Find(s, [sep])
    case None => [s]
    case Some(i) => [s[..i]] + Split(s[i + 1..], sep)
  }

  /** The pieces hold no separator and, rejoined with it, give back `s`;
      there is more than one piece exactly when `sep` occurs. */
  lemma {:induction false} SplitParts(s: string, sep: char)
    ensures var parts := Split(s, sep);
            && (forall k :: 0 <= k < |parts| ==> sep !in parts[k])
            && Join(parts, [sep]) == s
            && (|parts| >= 2 <==> sep in s)
    decreases |s|
  {
    FindChar(s, sep);
    match Find(s, [sep])
    case None =>
    case Some(i) =>
      var rest := Split(s[i + 1..], sep);
      SplitParts(s[i + 1..], sep);
      assert s == s[..i] + [sep] + s[i + 1..];
      assert ([s[..i]] + rest)[1..] == rest;
  }

  /** Splitting undoes joining when no part contains the separator. */
  lemma {:induction false} SplitJoin(parts: seq<string>, sep: char)
    requires |parts| >= 1
    requires forall k :: 0 <= k < |parts| ==> sep !in parts[k]
    ensures Split(Join(parts, [sep]), sep) == parts
    decreases |parts|
  {
    var s := Join(parts, [sep]);
    FindChar(s, sep);
    SplitParts(s, sep);
    if |parts| == 1 {
      assert s == parts[0];
    } else {
      var head := parts[0];
      var tail := Join(parts[1..], [sep]);
      assert s == head + [sep] + tail;
      assert s[|head|] == sep;
      var i := Find(s, [sep]).value;
      assert s[..i] == head;
      assert s[i + 1..] == tail;
      SplitJoin(parts[1..], sep);
      assert parts == [head] + parts[1..];
    }
  }

  predicate IsUpper(c: char) {
    'A' <= c <= 'Z'
  }

  /** ASCII `to_lowercase` of one character. */
  function LowerChar(c: char): char {
    if IsUpper(c) then (c as int + 32) as char else c
  }

  /** `to_lowercase` for ASCII text: upper-case letters become their
      lower-case counterparts, every other character is kept. */
  function ToLower(s: string): (r: string)
    ensures |r| == |s|
    ensures forall i :: 0 <= i < |s| ==> !IsUpper(r[i])
    ensures forall i :: 0 <= i < |s| && !IsUpper(s[i]) ==> r[i] == s[i]
    ensures forall i :: 0 <= i < |s| && IsUpper(s[i]) ==> r[i] as int == s[i] as int + 32
  {
    seq(|s|, i requires 0 <= i < |s| => LowerChar(s[i]))
  }

  /** Lower-casing twice is lower-casing once. */
  lemma ToLowerIdempotent(s: string)
    ensures ToLower(ToLower(s)) == ToLower(s)
  {
  }

  /** Text without upper-case letters is its own lower-casing. */
  lemma LowerUnchanged(s: string)
    requires forall i :: 0 <= i < |s| ==> !IsUpper(s[i])
    ensures ToLower(s) == s
  {
  }

  /** Rust's `char::is_whitespace` restricted to ASCII: tab, line feed,
      vertical tab, form feed, carriage return and space. */
  predicate IsWhitespace(c: char) {
    c == ' ' || '\t' <= c <= '\r'
  }

  /** A whitespace-separated token: non-empty and free of whitespace. */
  predicate IsToken(t: string) {
    |t| > 0 && forall i :: 0 <= i < |t| ==> !IsWhitespace(t[i])
  }

  /** Length of the leading run of non-whitespace characters. */
  function WordLength(s: string): (n: nat)
    ensures n <= |s|
    ensures forall j :: 0 <= j < n ==> !IsWhitespace(s[j])
    ensures n < |s| ==> IsWhitespace(s[n])
  {
    if |s| == 0 || IsWhitespace(s[0]) then 0 else 1 + WordLength(s[1..])
  }

  /** `str::split_whitespace`: the maximal runs of non-whitespace
      characters, in order. */
  function SplitWhitespace(s: string): (tokens: seq<string>)
    ensures forall n :: 0 <= n < |tokens| ==> IsToken(tokens[n])
    decreases |s|
  {
    if |s| == 0 then []
    else if IsWhitespace(s[0]) then SplitWhitespace(s[1..])
    else
      var n := WordLength(s);
      [s[..n]] + SplitWhitespace(s[n..])
  }

  /** The characters of `s` that are not whitespace, in order. */
  function Visible(s: string): string
  {
    if |s| == 0 then ""
    else if IsWhitespace(s[0]) then Visible(s[1..])
    else [s[0]] + Visible(s[1..])
  }

  function Concat(ts: seq<string>): string
  {
    if |ts| == 0 then "" else ts[0] + Concat(ts[1..])
  }

  lemma {:induction false} VisibleAppend(a: string, b: string)
    ensures Visible(a + b) == Visible(a) + Visible(b)
    decreases |a|
  {
    if |a| == 0 {
      assert a + b == b;
    } else {
      assert (a + b)[1..] == a[1..] + b;
      VisibleAppend(a[1..], b);
    }
  }

  lemma {:induction false} VisibleOfToken(t: string)
    requires forall i :: 0 <= i < |t| ==> !IsWhitespace(t[i])
    ensures Visible(t) == t
    decreases |t|
  {
    if |t| > 0 {
      VisibleOfToken(t[1..]);
      assert t == [t[0]] + t[1..];
    }
  }

  /** Splitting on whitespace keeps every non-whitespace character, in
      order, and drops only whitespace. */
  lemma {:induction false} SplitWhitespaceKeepsText(s: string)
    ensures Concat(SplitWhitespace(s)) == Visible(s)
    decreases |s|
  {
    if |s| == 0 {
    } else if IsWhitespace(s[0]) {
      SplitWhitespaceKeepsText(s[1..]);
    } else {
      var n := WordLength(s);
      var tokens := SplitWhitespace(s);
      assert tokens[1..] == SplitWhitespace(s[n..]);
      SplitWhitespaceKeepsText(s[n..]);
      assert s == s[..n] + s[n..];
      VisibleAppend(s[..n], s[n..]);
      VisibleOfToken(s[..n]);
    }
  }

  /** The leading run of a token followed by whitespace (or nothing) is the
      whole token. */
  lemma {:induction false} WordLengthOfToken(t: string, rest: string)
    requires forall i :: 0 <= i < |t| ==> !IsWhitespace(t[i])
    requires |rest| > 0 ==> IsWhitespace(rest[0])
    ensures WordLength(t + rest) == |t|
    decreases |t|
  {
    if |t| > 0 {
      assert (t + rest)[1..] == t[1..] + rest;
      WordLengthOfToken(t[1..], rest);
    } else {
      assert t + rest == rest;
    }
  }

  /** Splitting on whitespace undoes joining tokens with single spaces. */
  lemma {:induction false} SplitWhitespaceJoin(tokens: seq<string>)
    requires forall n :: 0 <= n < |tokens| ==> IsToken(tokens[n])
    ensures SplitWhitespace(Join(tokens, " ")) == tokens
    decreases |tokens|
  {
    if |tokens| == 0 {
    } else {
      var t := tokens[0];
      var s := Join(tokens, " ");
      var rest := if |tokens| == 1 then "" else " " + Join(tokens[1..], " ");
      assert s == t + rest;
      WordLengthOfToken(t, rest);
      assert s[..|t|] == t;
      assert s[|t|..] == rest;
      SplitWhitespaceJoin(tokens[1..]);
      if |tokens| > 1 {
        assert rest[1..] == Join(tokens[1..], " ");
      }
      assert tokens == [t] + tokens[1..];
    }
  }

  /** Text made only of whitespace (possibly empty). */
  predicate AllWhitespace(w: string) {
    forall i :: 0 <= i < |w| ==> IsWhitespace(w[i])
  }

  /** A token on its own splits into exactly itself. */
  lemma SplitWhitespaceToken(t: string)
    requires IsToken(t)
    ensures SplitWhitespace(t) == [t]
  {
    assert Join([t], " ") == t;
    SplitWhitespaceJoin([t]);
  }

  /** Leading whitespace of any kind and length is skipped. */
  lemma {:induction false} SplitWhitespaceSkip(w: string, b: string)
    requires AllWhitespace(w)
    ensures SplitWhitespace(w + b) == SplitWhitespace(b)
    decreases |w|
  {
    if |w| == 0 {
      assert w + b == b;
    } else {
      assert (w + b)[1..] == w[1..] + b;
      SplitWhitespaceSkip(w[1..], b);
    }
  }

  /** The leading run is not changed by what follows it, once it has ended
      at whitespace or what follows starts with whitespace. */
  lemma {:induction false} WordLengthAppend(a: string, r: string)
    requires WordLength(a) < |a| || |r| == 0 || IsWhitespace(r[0])
    ensures WordLength(a + r) == WordLength(a)
    decreases |a|
  {
    if |a| == 0 {
      assert a + r == r;
    } else if !IsWhitespace(a[0]) {
      assert (a + r)[1..] == a[1..] + r;
      WordLengthAppend(a[1..], r);
    }
  }

  /** A non-empty run of whitespace, of any kind and length, separates the
      tokens on its two sides: splitting across it is splitting each side. */
  lemma {:induction false} SplitWhitespaceAppend(a: string, w: string, b: string)
    requires |w| > 0 && AllWhitespace(w)
    ensures SplitWhitespace(a + w + b) == SplitWhitespace(a) + SplitWhitespace(b)
    decreases |a|
  {
    var s := a + w + b;
    if |a| == 0 {
      assert s == w + b;
      SplitWhitespaceSkip(w, b);
    } else if IsWhitespace(a[0]) {
      assert s[1..] == a[1..] + w + b;
      SplitWhitespaceAppend(a[1..], w, b);
    } else {
      var n := WordLength(a);
      SplitWhitespaceAppend(a[n..], w, b);
      assert SplitWhitespace(s) == [a[..n]] + SplitWhitespace(a[n..] + w + b) by {
        WordLengthAppend(a, w + b);
        assert s == a + (w + b);
        assert s[..n] == a[..n];
        assert s[n..] == a[n..] + w + b;
      }
      assert SplitWhitespace(a) == [a[..n]] + SplitWhitespace(a[n..]);
    }
  }
}
