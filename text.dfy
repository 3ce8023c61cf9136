/**
 * Models of the Rust string operations that grep.rs relies on:
 * `str::split_whitespace` and `str::split` on a single character,
 * each with the join that inverts it.
 */
module Text {

  /** Characters with the Unicode White_Space property, which `char::is_whitespace` tests. */
  predicate IsWhitespace(c: char)
  {
    || ('\t' <= c <= '\r')
    || c == ' ' || c == '\U{85}' || c == '\U{A0}' || c == '\U{1680}'
    || ('\U{2000}' <= c <= '\U{200A}')
    || c == '\U{2028}' || c == '\U{2029}' || c == '\U{202F}' || c == '\U{205F}' || c == '\U{3000}'
  }

  /** A string made of whitespace only (the empty string included). */
  predicate IsBlank(s: string)
  {
    forall i :: 0 <= i < |s| ==> IsWhitespace(s[i])
  }

  /** What `split_whitespace` can yield: a non-empty run of non-whitespace characters. */
  predicate IsToken(t: string)
  {
    t != [] && forall i :: 0 <= i < |t| ==> !IsWhitespace(t[i])
  }

  /** Length of the longest whitespace-free prefix of `s`. */
  function TokenLength(s: string): (n: nat)
    ensures n <= |s|
    ensures forall i :: 0 <= i < n ==> !IsWhitespace(s[i])
    ensures n < |s| ==> IsWhitespace(s[n])
  {
    if s == [] || IsWhitespace(s[0]) then 0 else 1 + TokenLength(s[1..])
  }

  /** `str::split_whitespace`: the maximal whitespace-free runs of `s`, in order. */
  function SplitWhitespace(s: string): (r: seq<string>)
    ensures forall i :: 0 <= i < |r| ==> IsToken(r[i])
    decreases |s|
  {
    if s == [] then []
    else if IsWhitespace(s[0]) then SplitWhitespace(s[1..])
    else
      var n := TokenLength(s);
      [s[..n]] + SplitWhitespace(s[n..])
  }

  /** The tokens joined by single spaces. */
  function JoinSpaced(ts: seq<string>): string
  {
    if |ts| == 0 then ""
    else if |ts| == 1 then ts[0]
    else ts[0] + " " + JoinSpaced(ts[1..])
  }

  /** The characters of `s` that are not whitespace, in order. */
  function NonWhitespace(s: string): string
  {
    if s == [] then ""
    else (if IsWhitespace(s[0]) then "" else [s[0]]) + NonWhitespace(s[1..])
  }

  /** Concatenation of a sequence of strings. */
  function Flatten(ts: seq<string>): string
  {
    if ts == [] then "" else ts[0] + Flatten(ts[1..])
  }

  lemma TokenLengthOfToken(t: string, s: string)
    requires IsToken(t)
    requires s == [] || IsWhitespace(s[0])
    ensures TokenLength(t + s) == |t|
  {
    assert forall i :: 0 <= i < |t| ==> (t + s)[i] == t[i];
    assert s != [] ==> (t + s)[|t|] == s[0];
  }

  /** A token followed by whitespace (or by nothing) is split off whole. */
  lemma SplitAfterToken(t: string, s: string)
    requires IsToken(t)
    requires s == [] || IsWhitespace(s[0])
    ensures SplitWhitespace(t + s) == [t] + SplitWhitespace(s)
  {
    TokenLengthOfToken(t, s);
    var u := t + s;
    assert u[0] == t[0];
    assert u[..|t|] == t;
    assert u[|t|..] == s;
  }

  /** Whitespace in front of the string is skipped and yields no token. */
  lemma SplitSkipsWhitespace(c: char, s: string)
    requires IsWhitespace(c)
    ensures SplitWhitespace([c] + s) == SplitWhitespace(s)
  {
    assert ([c] + s)[1..] == s;
  }

  /** Splitting a space-joined list of tokens gives back the list. */
  lemma {:induction false} SplitJoinSpaced(ts: seq<string>)
    requires forall i :: 0 <= i < |ts| ==> IsToken(ts[i])
    ensures SplitWhitespace(JoinSpaced(ts)) == ts
  {
    if |ts| == 1 {
      SplitAfterToken(ts[0], "");
      assert ts[0] + "" == ts[0];
    } else if |ts| > 1 {
      var rest := JoinSpaced(ts[1..]);
      SplitAfterToken(ts[0], " " + rest);
      assert ts[0] + " " + rest == ts[0] + (" " + rest);
      assert (" " + rest)[1..] == rest;
      SplitJoinSpaced(ts[1..]);
      assert [ts[0]] + ts[1..] == ts;
    }
  }

  lemma {:induction false} NonWhitespaceConcat(a: string, b: string)
    ensures NonWhitespace(a + b) == NonWhitespace(a) + NonWhitespace(b)
  {
    if a != [] {
      assert (a + b)[1..] == a[1..] + b;
      NonWhitespaceConcat(a[1..], b);
    } else {
      assert a + b == b;
    }
  }

  lemma {:induction false} NonWhitespaceOfWhitespaceFree(a: string)
    requires forall i :: 0 <= i < |a| ==> !IsWhitespace(a[i])
    ensures NonWhitespace(a) == a
  {
    if a != [] {
      NonWhitespaceOfWhitespaceFree(a[1..]);
    }
  }

  /** Splitting on whitespace drops exactly the whitespace: the tokens together hold every other character, in order. */
  lemma {:induction false} SplitKeepsText(s: string)
    ensures Flatten(SplitWhitespace(s)) == NonWhitespace(s)
    decreases |s|
  {
    if s != [] {
      if IsWhitespace(s[0]) {
        SplitKeepsText(s[1..]);
      } else {
        var n := TokenLength(s);
        assert s == s[..n] + s[n..];
        NonWhitespaceConcat(s[..n], s[n..]);
        NonWhitespaceOfWhitespaceFree(s[..n]);
        SplitKeepsText(s[n..]);
        var rest := SplitWhitespace(s[n..]);
        assert ([s[..n]] + rest)[1..] == rest;
      }
    }
  }

  /** `split_whitespace` yields nothing exactly when the string is blank. */
  lemma {:induction false} SplitBlank(s: string)
    ensures SplitWhitespace(s) == [] <==> IsBlank(s)
    decreases |s|
  {
    if s != [] {
      if IsWhitespace(s[0]) {
        SplitBlank(s[1..]);
        assert IsBlank(s) <==> IsBlank(s[1..]) by {
          if IsBlank(s[1..]) {
            forall i | 0 <= i < |s| ensures IsWhitespace(s[i]) {
              if i > 0 { assert s[i] == s[1..][i - 1]; }
            }
          }
        }
      }
    }
  }

  /**
   * `str::split(d)`: the pieces of `s` between occurrences of `d`. There is
   * always at least one piece, so the empty string gives `[""]`.
   */
  function Split(s: string, d: char): (parts: seq<string>)
    ensures |parts| == multiset(s)[d] + 1
    ensures forall i :: 0 <= i < |parts| ==> d !in parts[i]
  {
    if s == [] then [""]
    else
      assert s == [s[0]] + s[1..];
      var rest := Split(s[1..], d);
      if s[0] == d then [""] + rest
      else [[s[0]] + rest[0]] + rest[1..]
  }

  /** The pieces joined by `d`. */
  function JoinWith(parts: seq<string>, d: char): string
    requires |parts| >= 1
  {
    if |parts| == 1 then parts[0] else parts[0] + [d] + JoinWith(parts[1..], d)
  }

  lemma {:induction false} SplitWithout(s: string, d: char)
    requires d !in s
    ensures Split(s, d) == [s]
  {
    if s != [] {
      assert s[0] != d;
      SplitWithout(s[1..], d);
      assert [s[0]] + s[1..] == s;
    }
  }

  /** A first piece free of `d`, then `d`, is split off whole. */
  lemma {:induction false} SplitAfter(a: string, d: char, b: string)
    requires d !in a
    ensures Split(a + [d] + b, d) == [a] + Split(b, d)
  {
    var s := a + [d] + b;
    if a == [] {
      assert s[1..] == b;
    } else {
      assert s[1..] == a[1..] + [d] + b;
      SplitAfter(a[1..], d, b);
      assert [a[0]] + a[1..] == a;
    }
  }

  /** Putting a character in front of the first piece puts it in front of the joined string. */
  lemma JoinWithExtendHead(c: char, parts: seq<string>, d: char)
    requires |parts| >= 1
    ensures JoinWith([[c] + parts[0]] + parts[1..], d) == [c] + JoinWith(parts, d)
  {
    var ext := [[c] + parts[0]] + parts[1..];
    assert ext[1..] == parts[1..];
    if |parts| > 1 {
      assert JoinWith(ext, d) == ([c] + parts[0]) + [d] + JoinWith(parts[1..], d);
    }
  }

  /** Joining the pieces with `d` gives back the string. */
  lemma {:induction false} JoinSplit(s: string, d: char)
    ensures JoinWith(Split(s, d), d) == s
  {
    if s != [] {
      var rest := Split(s[1..], d);
      JoinSplit(s[1..], d);
      if s[0] == d {
        assert Split(s, d) == [""] + rest;
        assert ([""] + rest)[1..] == rest;
        assert s == [d] + s[1..];
      } else {
        assert Split(s, d) == [[s[0]] + rest[0]] + rest[1..];
        JoinWithExtendHead(s[0], rest, d);
        assert s == [s[0]] + s[1..];
      }
    }
  }

  /** Splitting pieces free of `d`, joined by `d`, gives back the pieces. */
  lemma {:induction false} SplitJoinWith(parts: seq<string>, d: char)
    requires |parts| >= 1
    requires forall i :: 0 <= i < |parts| ==> d !in parts[i]
    ensures Split(JoinWith(parts, d), d) == parts
  {
    if |parts| == 1 {
      SplitWithout(parts[0], d);
    } else {
      SplitAfter(parts[0], d, JoinWith(parts[1..], d));
      SplitJoinWith(parts[1..], d);
      assert [parts[0]] + parts[1..] == parts;
    }
  }
}
