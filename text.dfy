/** The three string operations the roster parser relies on: stripping
    trailing whitespace, ASCII lower-casing and splitting on a separator. */
module Text {

  /** Python's str.isspace on the ASCII range: space, \t \n \v \f \r and the
      four separators 0x1C-0x1F. */
  predicate IsSpace(c: char) {
    c == ' ' || (9 <= c as int <= 13) || (28 <= c as int <= 31)
  }

  /** str.rstrip(): drops the longest all-whitespace suffix. */
  function RStrip(s: string): (r: string)
    ensures r <= s
    ensures r == [] || !IsSpace(r[|r| - 1])
    ensures forall k :: |r| <= k < |s| ==> IsSpace(s[k])
    decreases |s|
  {
    if s != [] && IsSpace(s[|s| - 1]) then RStrip(s[..|s| - 1]) else s
  }

  /** Stripping a line whose text ends in a non-space gives back that text,
      whatever whitespace line ending follows it. */
  lemma {:induction false} RStripLineEnding(text: string, eol: string)
    requires text == [] || !IsSpace(text[|text| - 1])
    requires forall k :: 0 <= k < |eol| ==> IsSpace(eol[k])
    ensures RStrip(text + eol) == text
    decreases |eol|
  {
    if eol == [] {
      assert text + eol == text;
    } else {
      var shorter := eol[..|eol| - 1];
      assert (text + eol)[..|text + eol| - 1] == text + shorter;
      RStripLineEnding(text, shorter);
    }
  }

  function LowerChar(c: char): char {
    if 'A' <= c <= 'Z' then (c as int + 32) as char else c
  }

  /** str.lower() on the ASCII range. */
  function Lower(s: string): (r: string)
    ensures |r| == |s|
    ensures forall k :: 0 <= k < |s| ==> r[k] == LowerChar(s[k])
  {
    seq(|s|, k requires 0 <= k < |s| => LowerChar(s[k]))
  }

  predicate IsUpper(c: char) {
    'A' <= c <= 'Z'
  }

  /** c is k, or the upper-case form of the lower-case letter k. */
  predicate SameUpToCase(c: char, k: char) {
    c == k || ('a' <= k <= 'z' && c as int == k as int - 32)
  }

  /** Lower-casing s gives a key with no upper-case letters exactly when s
      spells the key, letter by letter, in either case. */
  lemma LowerMatches(s: string, key: string)
    requires forall i :: 0 <= i < |key| ==> !IsUpper(key[i])
    ensures Lower(s) == key <==>
      |s| == |key| && forall i :: 0 <= i < |s| ==> SameUpToCase(s[i], key[i])
  {
    if |s| == |key| && forall i :: 0 <= i < |s| ==> SameUpToCase(s[i], key[i]) {
      forall i | 0 <= i < |s| ensures Lower(s)[i] == key[i] {
        if s[i] != key[i] {
          assert IsUpper(s[i]);
        }
      }
    }
  }

  /** str.split(sep): the pieces between occurrences of sep, empty pieces
      included, so there is always one piece more than separators. */
  function Split(s: string, sep: char): (parts: seq<string>)
    ensures |parts| >= 1
    ensures forall k :: 0 <= k < |parts| ==> sep !in parts[k]
    decreases |s|
  {
    if s == [] then [[]]
    else
      var rest := Split(s[1..], sep);
      if s[0] == sep then [[]] + rest
      else [[s[0]] + rest[0]] + rest[1..]
  }

  /** sep.join(parts), the inverse of Split. */
  function Join(parts: seq<string>, sep: char): string
    requires |parts| >= 1
  {
    if |parts| == 1 then parts[0] else parts[0] + [sep] + Join(parts[1..], sep)
  }

  /** Joining the pieces of a split gives back the string. */
  lemma {:induction false} JoinSplit(s: string, sep: char)
    ensures Join(Split(s, sep), sep) == s
    decreases |s|
  {
    if s != [] {
      var rest := Split(s[1..], sep);
      JoinSplit(s[1..], sep);
      if s[0] == sep {
        assert ([[]] + rest)[1..] == rest;
      } else if |rest| == 1 {
        assert [s[0]] + rest[0] == s;
      } else {
        var parts := [[s[0]] + rest[0]] + rest[1..];
        assert parts[1..] == rest[1..];
        assert Join(rest, sep) == rest[0] + [sep] + Join(rest[1..], sep);
        assert Join(parts, sep) == [s[0]] + Join(rest, sep);
        assert [s[0]] + s[1..] == s;
      }
    }
  }

  /** A separator-free prefix glues onto the first piece of what follows it. */
  lemma {:induction false} SplitFreePrefix(w: string, t: string, sep: char)
    requires sep !in w
    ensures Split(w + t, sep) == [w + Split(t, sep)[0]] + Split(t, sep)[1..]
    decreases |w|
  {
    if w != [] {
      assert (w + t)[0] == w[0];
      assert (w + t)[1..] == w[1..] + t;
      SplitFreePrefix(w[1..], t, sep);
      assert [w[0]] + (w[1..] + Split(t, sep)[0]) == w + Split(t, sep)[0];
    } else {
      var pieces := Split(t, sep);
      assert w + t == t && w + pieces[0] == pieces[0];
      assert [pieces[0]] + pieces[1..] == pieces;
    }
  }

  /** Splitting a join of separator-free pieces gives back the pieces. */
  lemma {:induction false} SplitJoin(parts: seq<string>, sep: char)
    requires |parts| >= 1
    requires forall k :: 0 <= k < |parts| ==> sep !in parts[k]
    ensures Split(Join(parts, sep), sep) == parts
    decreases |parts|
  {
    if |parts| == 1 {
      SplitFreePrefix(parts[0], [], sep);
      assert parts[0] + [] == parts[0];
    } else {
      var tail := Join(parts[1..], sep);
      SplitJoin(parts[1..], sep);
      assert ([sep] + tail)[0] == sep && ([sep] + tail)[1..] == tail;
      assert Split([sep] + tail, sep) == [[]] + parts[1..];
      assert parts[0] + [sep] + tail == parts[0] + ([sep] + tail);
      SplitFreePrefix(parts[0], [sep] + tail, sep);
      assert parts[0] + [] == parts[0];
    }
  }
}
