/**
 The few Python `str` operations that the upload check relies on, stated over
 `string` (= `seq<char>`): `sep in s`, `s.rsplit(sep, 1)` and `s.lower()`.
 `lower` is modelled on ASCII letters only.
 */
module PyStr {

  /** True iff `c` is an ASCII upper-case letter. */
  predicate IsAsciiUpper(c: char) {
    'A' <= c <= 'Z'
  }

  /** `c.lower()` for an ASCII character: maps A-Z to a-z, leaves every other character alone. */
  function LowerChar(c: char): char {
    if IsAsciiUpper(c) then (c as int + 32) as char else c
  }

  /**
   `s.lower()`, character by character: the result has no upper-case letter,
   every upper-case letter becomes its lower-case partner, and every other
   character stays where it was.
   */
  function Lower(s: string): (r: string)
    ensures |r| == |s|
    ensures forall i :: 0 <= i < |r| ==> !IsAsciiUpper(r[i])
    ensures forall i :: 0 <= i < |s| && IsAsciiUpper(s[i]) ==> 'a' <= r[i] <= 'z' && r[i] as int - 'a' as int == s[i] as int - 'A' as int
    ensures forall i :: 0 <= i < |s| && !IsAsciiUpper(s[i]) ==> r[i] == s[i]
  {
    seq(|s|, i requires 0 <= i < |s| => LowerChar(s[i]))
  }

  /** Lower-casing never produces an upper-case letter, so doing it twice changes nothing. */
  lemma LowerIdempotent(s: string)
    ensures Lower(Lower(s)) == Lower(s)
  {
    assert forall i :: 0 <= i < |s| ==> LowerChar(LowerChar(s[i])) == LowerChar(s[i]);
  }

  /** Lower-casing works on each part of a concatenation separately. */
  lemma LowerConcat(a: string, b: string)
    ensures Lower(a + b) == Lower(a) + Lower(b)
  {
  }

  /**
   A character that is not an upper-case letter is produced by lower-casing
   exactly where it already stood: `sep in s.lower()` iff `sep in s` for a
   separator such as `.`.
   */
  lemma LowerKeepsSeparator(s: string, sep: char)
    requires !IsAsciiUpper(sep) && !('a' <= sep <= 'z')
    ensures forall i :: 0 <= i < |s| ==> (Lower(s)[i] == sep <==> s[i] == sep)
    ensures sep in Lower(s) <==> sep in s
  {
    if sep in s {
      var i :| 0 <= i < |s| && s[i] == sep;
      assert Lower(s)[i] == sep;
    }
  }

  /**
   `s.rsplit(sep, 1)`: a one-element list `[s]` when `sep` does not occur in `s`,
   otherwise the two-element list of the text before and after the LAST `sep`.
   */
  function RSplitOnce(s: string, sep: char): (parts: seq<string>)
    ensures |parts| == 1 || |parts| == 2
    ensures |parts| == 1 <==> sep !in s
    ensures |parts| == 1 ==> parts[0] == s
    ensures |parts| == 2 ==> parts[0] + [sep] + parts[1] == s && sep !in parts[1]
    decreases |s|
  {
    if s == [] then [s]
    else if s[|s| - 1] == sep then [s[..|s| - 1], []]
    else
      var init := s[..|s| - 1];
      var p := RSplitOnce(init, sep);
      assert s == init + [s[|s| - 1]];
      if |p| == 1 then [s] else [p[0], p[1] + [s[|s| - 1]]]
  }

  /**
   The split is unique: whenever `s` is `p + [sep] + e` with no `sep` in `e`,
   `s.rsplit(sep, 1)` is `[p, e]`, whatever `p` holds (including further separators).
   */
  lemma {:induction false} RSplitOnceAt(p: string, e: string, sep: char)
    requires sep !in e
    ensures RSplitOnce(p + [sep] + e, sep) == [p, e]
    decreases |e|
  {
    var s := p + [sep] + e;
    if e == [] {
      assert s[..|s| - 1] == p;
    } else {
      var e' := e[..|e| - 1];
      assert s[..|s| - 1] == p + [sep] + e';
      assert sep !in e' by {
        forall i | 0 <= i < |e'| ensures e'[i] != sep {
          assert e'[i] == e[i];
        }
      }
      RSplitOnceAt(p, e', sep);
      assert e == e' + [e[|e| - 1]];
    }
  }
}
