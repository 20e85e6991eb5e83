/** The Python string operations the helper-partition check relies on, restricted to
    ASCII: `str.strip()`, `str.lower()`, and splitting a CSV line at its commas. */
module Text {

  /** The ASCII characters `str.strip()` removes. */
  predicate IsSpace(c: char)
  {
    c == ' ' || c == '\t' || c == '\n' || c == '\r' || c == '\U{000B}' || c == '\U{000C}'
    || c == '\U{001C}' || c == '\U{001D}' || c == '\U{001E}' || c == '\U{001F}'
  }

  predicate AllSpace(s: seq<char>)
  {
    forall k :: 0 <= k < |s| ==> IsSpace(s[k])
  }

  /** How many spaces `s` starts with. */
  function TextStart(s: seq<char>): (i: nat)
    ensures i <= |s|
    ensures forall k :: 0 <= k < i ==> IsSpace(s[k])
    ensures i < |s| ==> !IsSpace(s[i])
  {
    if |s| == 0 || !IsSpace(s[0]) then 0
    else TextStart(s[1..]) + 1
  }

  /** Where the trailing spaces of `s` begin. */
  function TextEnd(s: seq<char>): (j: nat)
    ensures j <= |s|
    ensures forall k :: j <= k < |s| ==> IsSpace(s[k])
    ensures 0 < j ==> !IsSpace(s[j - 1])
  {
    if |s| == 0 || !IsSpace(s[|s| - 1]) then |s|
    else TextEnd(s[..|s| - 1])
  }

  /** `str.strip()`: `s` without its leading and trailing spaces. */
  function Strip(s: seq<char>): (r: seq<char>)
    ensures |r| <= |s|
    ensures r == [] || (!IsSpace(r[0]) && !IsSpace(r[|r| - 1]))
  {
    var i := TextStart(s);
    if i == |s| then [] else s[i..TextEnd(s)]
  }

  /** What strip removes is spaces only, from the two ends: the result is a slice of `s`
      with nothing but spaces before and after it. */
  lemma StripIsSlice(s: seq<char>)
    ensures exists i, j :: 0 <= i <= j <= |s| && Strip(s) == s[i..j] && AllSpace(s[..i]) && AllSpace(s[j..])
  {
    var i := TextStart(s);
    if i == |s| {
      assert Strip(s) == s[|s|..|s|] && s[|s|..] == [];
    } else {
      var j := TextEnd(s);
      assert Strip(s) == s[i..j];
    }
  }

  /** A string without leading or trailing spaces is its own strip. */
  lemma {:induction false} StripOfTrimmed(s: seq<char>)
    requires s == [] || (!IsSpace(s[0]) && !IsSpace(s[|s| - 1]))
    ensures Strip(s) == s
  {
    if s != [] {
      assert TextStart(s) == 0;
      assert TextEnd(s) == |s|;
    }
  }

  /** Stripping twice is stripping once. */
  lemma StripIdempotent(s: seq<char>)
    ensures Strip(Strip(s)) == Strip(s)
  {
    StripOfTrimmed(Strip(s));
  }

  /** `str.lower()` on ASCII: capitals become small letters, nothing else changes. */
  function LowerChar(c: char): char
  {
    if 'A' <= c <= 'Z' then (c as int + 32) as char else c
  }

  function Lower(s: seq<char>): (r: seq<char>)
    ensures |r| == |s|
    ensures forall k :: 0 <= k < |s| ==> r[k] == LowerChar(s[k])
  {
    seq(|s|, k requires 0 <= k < |s| => LowerChar(s[k]))
  }

  /** A line cut at every `sep`: one field more than there are separators. */
  function Split(s: seq<char>, sep: char): (fields: seq<seq<char>>)
    ensures |fields| >= 1
    ensures forall k :: 0 <= k < |fields| ==> sep !in fields[k]
  {
    if |s| == 0 then [[]]
    else
      var rest := Split(s[1..], sep);
      if s[0] == sep then [[]] + rest else [[s[0]] + rest[0]] + rest[1..]
  }

  /** The fields put back together with `sep` between them. */
  function Join(fields: seq<seq<char>>, sep: char): seq<char>
    requires |fields| >= 1
  {
    if |fields| == 1 then fields[0] else fields[0] + [sep] + Join(fields[1..], sep)
  }

  /** Splitting loses nothing: joining the fields gives the line back. */
  lemma {:induction false} JoinSplit(s: seq<char>, sep: char)
    ensures Join(Split(s, sep), sep) == s
  {
    if |s| > 0 {
      JoinSplit(s[1..], sep);
      var rest := Split(s[1..], sep);
      if s[0] == sep {
        assert Split(s, sep)[1..] == rest;
      } else {
        var fs := Split(s, sep);
        if |rest| == 1 {
          assert fs == [[s[0]] + rest[0]];
        } else {
          assert fs[1..] == rest[1..];
          assert Join(rest, sep) == rest[0] + [sep] + Join(rest[1..], sep);
        }
      }
    }
  }

  /** Splitting the join of separator-free fields gives the same fields back. */
  lemma {:induction false} SplitJoin(fields: seq<seq<char>>, sep: char)
    requires |fields| >= 1
    requires forall k :: 0 <= k < |fields| ==> sep !in fields[k]
    ensures Split(Join(fields, sep), sep) == fields
    decreases |Join(fields, sep)|
  {
    var f := fields[0];
    if |fields| == 1 {
      SplitField(f, [], sep);
      assert f + [] == f;
      assert Split(f, sep) == [f + Split([], sep)[0]];
    } else {
      var tail := Join(fields[1..], sep);
      SplitJoin(fields[1..], sep);
      SplitAtSep(tail, sep);
      SplitField(f, [sep] + tail, sep);
      assert Join(fields, sep) == f + ([sep] + tail);
      assert [[]] + Split(tail, sep) == [[]] + fields[1..];
      assert Split([sep] + tail, sep)[0] == [] && Split([sep] + tail, sep)[1..] == fields[1..];
      assert f + [] == f;
      assert fields == [fields[0]] + fields[1..];
    }
  }

  /** A separator in front of a line adds an empty first field. */
  lemma SplitAtSep(s: seq<char>, sep: char)
    ensures Split([sep] + s, sep) == [[]] + Split(s, sep)
  {
    assert ([sep] + s)[1..] == s;
  }

  /** A separator-free prefix joins the first field of what follows it. */
  lemma {:induction false} SplitField(f: seq<char>, s: seq<char>, sep: char)
    requires sep !in f
    ensures var fs := Split(s, sep);
      Split(f + s, sep) == [f + fs[0]] + fs[1..]
  {
    if |f| > 0 {
      SplitField(f[1..], s, sep);
      assert (f + s)[1..] == f[1..] + s;
      assert [f[0]] + (f[1..] + Split(s, sep)[0]) == f + Split(s, sep)[0];
    } else {
      var fs := Split(s, sep);
      assert f + s == s;
      assert f + fs[0] == fs[0];
      assert fs == [fs[0]] + fs[1..];
    }
  }
}
