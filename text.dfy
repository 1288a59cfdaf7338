/**
 * Character classes and string helpers shared by the script generator and the
 * log analyzer: Python's whitespace class, str.strip, str.join and str.split.
 */
module Text {

  /** Python's str.isspace(), which is also what the regular-expression class \s
      matches in a str pattern. */
  predicate IsSpace(c: char) {
    var n := c as int;
    (0x09 <= n <= 0x0D) || (0x1C <= n <= 0x20) || n == 0x85 || n == 0xA0 || n == 0x1680
    || (0x2000 <= n <= 0x200A) || n == 0x2028 || n == 0x2029 || n == 0x202F || n == 0x205F
    || n == 0x3000
  }

  /** The length of the maximal run of whitespace that begins s. */
  function LeadingSpaces(s: string): (n: nat)
    ensures n <= |s|
  {
    if s != [] && IsSpace(s[0]) then 1 + LeadingSpaces(s[1..]) else 0
  }

  /** The run LeadingSpaces counts is whitespace and cannot be extended. */
  lemma {:induction false} LeadingSpacesSpec(s: string)
    ensures forall i :: 0 <= i < LeadingSpaces(s) ==> IsSpace(s[i])
    ensures LeadingSpaces(s) == |s| || !IsSpace(s[LeadingSpaces(s)])
    decreases |s|
  {
    if s != [] && IsSpace(s[0]) {
      LeadingSpacesSpec(s[1..]);
      assert forall i :: 1 <= i < |s| ==> s[i] == s[1..][i - 1];
    }
  }

  /** The length of the maximal run of whitespace that ends s. */
  function TrailingSpaces(s: string): (n: nat)
    ensures n <= |s|
  {
    if s != [] && IsSpace(s[|s| - 1]) then 1 + TrailingSpaces(s[..|s| - 1]) else 0
  }

  /** The run TrailingSpaces counts is whitespace and cannot be extended. */
  lemma {:induction false} TrailingSpacesSpec(s: string)
    ensures forall i :: |s| - TrailingSpaces(s) <= i < |s| ==> IsSpace(s[i])
    ensures TrailingSpaces(s) == |s| || !IsSpace(s[|s| - TrailingSpaces(s) - 1])
    decreases |s|
  {
    if s != [] && IsSpace(s[|s| - 1]) {
      TrailingSpacesSpec(s[..|s| - 1]);
      assert forall i :: 0 <= i < |s| - 1 ==> s[i] == s[..|s| - 1][i];
    }
  }

  /** str.lstrip(): drops the maximal run of leading whitespace. */
  function TrimLeft(s: string): string
  {
    s[LeadingSpaces(s)..]
  }

  /** What lstrip drops is whitespace, and what it keeps is a suffix of s that is
      empty or begins with a non-whitespace character. */
  lemma TrimLeftSpec(s: string)
    ensures var r := TrimLeft(s);
      |r| <= |s| && r == s[|s| - |r|..]
      && (forall k :: 0 <= k < |s| - |r| ==> IsSpace(s[k]))
      && (r == [] || !IsSpace(r[0]))
  {
    LeadingSpacesSpec(s);
  }

  /** str.rstrip(): drops the maximal run of trailing whitespace. */
  function TrimRight(s: string): string
  {
    s[..|s| - TrailingSpaces(s)]
  }

  /** What rstrip drops is whitespace, and what it keeps is a prefix of s that is
      empty or ends with a non-whitespace character. */
  lemma TrimRightSpec(s: string)
    ensures var r := TrimRight(s);
      |r| <= |s| && r == s[..|r|]
      && (forall k :: |r| <= k < |s| ==> IsSpace(s[k]))
      && (r == [] || !IsSpace(r[|r| - 1]))
  {
    TrailingSpacesSpec(s);
  }

  /** str.strip(): drops the leading and then the trailing whitespace. */
  function Strip(s: string): string
  {
    TrimRight(TrimLeft(s))
  }

  /** strip keeps a prefix of what lstrip keeps, drops only whitespace after it,
      and what it keeps begins and ends with a non-whitespace character. */
  lemma StripSpec(s: string)
    ensures var t, r := TrimLeft(s), Strip(s);
      |r| <= |t| && r == t[..|r|]
      && (forall k :: |r| <= k < |t| ==> IsSpace(t[k]))
      && (r == [] || (!IsSpace(r[0]) && !IsSpace(r[|r| - 1])))
  {
    var t := TrimLeft(s);
    TrimLeftSpec(s);
    TrimRightSpec(t);
    var r := TrimRight(t);
    assert r != [] ==> r[0] == t[0];
  }

  /** sep.join(parts) */
  function Join(sep: string, parts: seq<string>): (r: string)
    ensures |parts| == 0 ==> r == ""
    ensures |parts| >= 1 ==> |r| >= |parts[0]| && r[..|parts[0]|] == parts[0]
  {
    if |parts| == 0 then ""
    else if |parts| == 1 then parts[0]
    else parts[0] + sep + Join(sep, parts[1..])
  }

  /** Appending one part appends the separator and that part, and nothing after it. */
  lemma {:induction false} JoinSnoc(sep: string, parts: seq<string>, last: string)
    ensures Join(sep, parts + [last]) == if parts == [] then last else Join(sep, parts) + sep + last
    decreases |parts|
  {
    if |parts| >= 2 {
      assert (parts + [last])[1..] == parts[1..] + [last];
      JoinSnoc(sep, parts[1..], last);
    } else if |parts| == 1 {
      assert (parts + [last])[1..] == [last];
    }
  }

  /** Position of the first c in s, or |s| when there is none. */
  function IndexOf(s: string, c: char): (i: nat)
    ensures i <= |s|
    ensures i < |s| ==> s[i] == c
    ensures c !in s[..i]
  {
    if s == [] || s[0] == c then 0
    else
      var i := IndexOf(s[1..], c);
      assert s[..i + 1] == [s[0]] + s[1..][..i];
      i + 1
  }

  /** s.split(c): the pieces between occurrences of c, empty pieces kept. */
  function Split(s: string, c: char): (parts: seq<string>)
    ensures |parts| >= 1
    ensures forall k :: 0 <= k < |parts| ==> c !in parts[k]
    decreases |s|
  {
    var i := IndexOf(s, c);
    if i == |s| then
      assert s[..i] == s;
      [s]
    else
      [s[..i]] + Split(s[i + 1..], c)
  }

  lemma SplitAfterFirst(a: string, c: char, b: string)
    requires c !in a
    ensures Split(a + [c] + b, c) == [a] + Split(b, c)
  {
    var s := a + [c] + b;
    var i := IndexOf(s, c);
    assert s[|a|] == c;
    assert forall j :: 0 <= j < |a| ==> s[j] == a[j];
    assert forall j :: 0 <= j < i ==> s[..i][j] == s[j];
    assert i == |a|;
    assert s[..i] == a;
    assert s[i + 1..] == b;
  }

  /** Splitting a joined text at the separator gives back the parts, as long as
      no part contains the separator. */
  lemma {:induction false} SplitJoin(parts: seq<string>, c: char)
    requires |parts| >= 1
    requires forall k :: 0 <= k < |parts| ==> c !in parts[k]
    ensures Split(Join([c], parts), c) == parts
    decreases |parts|
  {
    if |parts| == 1 {
      assert IndexOf(parts[0], c) == |parts[0]|;
      assert parts[0][..|parts[0]|] == parts[0];
    } else {
      assert c !in parts[0];
      SplitJoin(parts[1..], c);
      SplitAfterFirst(parts[0], c, Join([c], parts[1..]));
      assert parts == [parts[0]] + parts[1..];
    }
  }
}
