/**
 The Python string operations that the upload-filename check relies on:
 `str.lower()` (restricted to ASCII letters), the substring test `c in s`
 for a one-character `c`, and `str.rsplit(sep, 1)` for a one-character
 separator.
 */
module StrOps {

  datatype Option<T> = None | Some(value: T)

  /** ASCII case folding of one character: `A`..`Z` become `a`..`z`. */
  function LowerChar(c: char): (r: char)
    ensures !('A' <= r <= 'Z')
    ensures r == c <==> !('A' <= c <= 'Z')
    ensures 'A' <= c <= 'Z' ==> 'a' <= r <= 'z' && r as int - 'a' as int == c as int - 'A' as int
  {
    if 'A' <= c <= 'Z' then (c as int + 32) as char else c
  }

  /** `s.lower()`, applied character by character. */
  function Lower(s: string): (r: string)
    ensures |r| == |s|
    ensures forall i :: 0 <= i < |s| ==> r[i] == LowerChar(s[i])
  {
    if s == [] then [] else [LowerChar(s[0])] + Lower(s[1..])
  }

  /** Two strings are equal once both are lower-cased. */
  predicate EqualIgnoringCase(a: string, b: string) {
    Lower(a) == Lower(b)
  }

  /** Only a dot folds to a dot; in particular a letter never does. */
  lemma LowerCharDot(c: char)
    ensures LowerChar(c) == '.' <==> c == '.'
  {
  }

  /** Lower-casing commutes with concatenation. */
  lemma LowerAppend(a: string, b: string)
    ensures Lower(a + b) == Lower(a) + Lower(b)
  {
  }

  /** Lower-casing keeps the positions of dots, so `'.' in s` is case-blind. */
  lemma LowerKeepsDots(s: string)
    ensures ('.' in s) <==> ('.' in Lower(s))
  {
  }

  /**
   The index of the last occurrence of `c` in `s`, or `None` when `c` does
   not occur; it is the position `rsplit` cuts at.
   */
  function LastIndexOf(s: string, c: char): (r: Option<nat>)
    ensures r.None? <==> c !in s
    ensures r.Some? ==> r.value < |s| && s[r.value] == c
    ensures r.Some? ==> forall j :: r.value < j < |s| ==> s[j] != c
  {
    if s == [] then None
    else if s[|s| - 1] == c then Some(|s| - 1)
    else
      var init := s[..|s| - 1];
      assert s == init + [s[|s| - 1]];
      LastIndexOf(init, c)
  }

  /**
   `s.rsplit(sep, 1)`: the whole string when `sep` does not occur, otherwise
   the text before and the text after the last `sep`.
   */
  function RSplitOnce(s: string, sep: char): (parts: seq<string>)
    ensures sep !in s ==> parts == [s]
    ensures sep in s ==> |parts| == 2 && s == parts[0] + [sep] + parts[1] && sep !in parts[1]
  {
    match LastIndexOf(s, sep)
    case None => [s]
    case Some(i) =>
      assert s == s[..i] + [sep] + s[i + 1..];
      [s[..i], s[i + 1..]]
  }

  /**
   The split is the only way to write `s` as head, separator, tail with no
   separator in the tail: the cut is at the last separator, whatever the head
   holds.
   */
  lemma RSplitOnceUnique(head: string, sep: char, tail: string)
    requires sep !in tail
    ensures RSplitOnce(head + [sep] + tail, sep) == [head, tail]
  {
    var s := head + [sep] + tail;
    assert s[|head|] == sep;
    var parts := RSplitOnce(s, sep);
    var k := |parts[0]|;
    assert parts[0] == s[..k] == head;
    assert parts[1] == s[k + 1..] == tail;
  }
}
