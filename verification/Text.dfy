/** The string operations of Go's `strings` package that the host-list code uses. */
module Text {

  function Join(parts: seq<string>, sep: string): string {
    if parts == [] then "" else if |parts| == 1 then parts[0] else parts[0] + sep + Join(parts[1..], sep)
  }

  /** strings.Split with a one-character separator: never empty. */
  function Split(s: string, c: char): (parts: seq<string>)
    ensures parts != []
  {
    if s == "" then [""]
    else if s[0] == c then [""] + Split(s[1..], c)
    else
      var rest := Split(s[1..], c);
      [[s[0]] + rest[0]] + rest[1..]
  }

  /** The position of the first `c`, or the length. */
  function IndexOf(s: string, c: char): (i: nat)
    ensures i <= |s|
    ensures i < |s| ==> s[i] == c
    ensures forall j :: 0 <= j < i ==> s[j] != c
  {
    if s == "" || s[0] == c then 0 else 1 + IndexOf(s[1..], c)
  }

  lemma IndexOfFirst(a: string, c: char, b: string)
    requires c !in a
    ensures IndexOf(a + [c] + b, c) == |a|
  {
    var s := a + [c] + b;
    assert s[|a|] == c;
    assert forall j :: 0 <= j < |a| ==> s[j] == a[j] && a[j] in a;
  }

  lemma {:induction false} SplitNone(s: string, c: char)
    requires c !in s
    ensures Split(s, c) == [s]
  {
    if s != "" {
      assert s[0] in s;
      SplitNone(s[1..], c);
      assert [s[0]] + s[1..] == s;
    }
  }

  lemma {:induction false} SplitAtFirst(a: string, c: char, b: string)
    requires c !in a
    ensures Split(a + [c] + b, c) == [a] + Split(b, c)
  {
    var s := a + [c] + b;
    if a == "" {
      assert s[1..] == b;
    } else {
      assert a[0] in a && s[0] == a[0] && s[1..] == a[1..] + [c] + b;
      SplitAtFirst(a[1..], c, b);
      assert [a[0]] + a[1..] == a;
      assert Split(s[1..], c)[1..] == Split(b, c);
    }
  }

  /** Splitting undoes joining when the separator does not occur in the parts. */
  lemma {:induction false} SplitOfJoin(parts: seq<string>, c: char)
    requires parts != [] && forall p :: p in parts ==> c !in p
    ensures Split(Join(parts, [c]), c) == parts
  {
    hide Split, Join;
    var first, rest := parts[0], parts[1..];
    assert parts == [first] + rest && first in parts && forall p :: p in rest ==> p in parts;
    JoinCons(first, rest, [c]);
    if rest == [] {
      SplitNone(first, c);
    } else {
      SplitOfJoin(rest, c);
      SplitAtFirst(first, c, Join(rest, [c]));
    }
  }

  lemma JoinCons(first: string, rest: seq<string>, sep: string)
    ensures Join([first] + rest, sep) == if rest == [] then first else first + sep + Join(rest, sep)
  {
    assert ([first] + rest)[1..] == rest;
  }

  lemma {:induction false} JoinChars(parts: seq<string>, sep: string, x: char)
    requires x in Join(parts, sep)
    ensures x in sep || exists p :: p in parts && x in p
  {
    if |parts| > 1 && x in Join(parts[1..], sep) {
      JoinChars(parts[1..], sep, x);
    }
  }

  /** unicode.IsSpace */
  predicate IsSpace(c: char) {
    || c in {' ', '\t', '\n', '\r', '\U{0B}', '\U{0C}', '\U{85}', '\U{A0}', '\U{1680}'}
    || '\U{2000}' <= c <= '\U{200A}'
    || c in {'\U{2028}', '\U{2029}', '\U{202F}', '\U{205F}', '\U{3000}'}
  }

  function TrimLeft(s: string): string {
    if s != "" && IsSpace(s[0]) then TrimLeft(s[1..]) else s
  }

  function TrimRight(s: string): string {
    if s != "" && IsSpace(s[|s| - 1]) then TrimRight(s[..|s| - 1]) else s
  }

  function TrimSpace(s: string): string {
    TrimRight(TrimLeft(s))
  }

  lemma {:induction false} TrimLeftLength(s: string)
    ensures |TrimLeft(s)| <= |s|
  {
    if s != "" && IsSpace(s[0]) { TrimLeftLength(s[1..]); }
  }

  lemma {:induction false} TrimRightLength(s: string)
    ensures |TrimRight(s)| <= |s|
  {
    if s != "" && IsSpace(s[|s| - 1]) { TrimRightLength(s[..|s| - 1]); }
  }

  /** Nothing is trimmed exactly when neither end is a space. */
  lemma TrimmedEnds(s: string)
    ensures TrimSpace(s) == s <==> s == "" || (!IsSpace(s[0]) && !IsSpace(s[|s| - 1]))
  {
    if s != "" {
      if IsSpace(s[0]) {
        TrimLeftLength(s[1..]);
        TrimRightLength(TrimLeft(s));
      } else if IsSpace(s[|s| - 1]) {
        TrimRightLength(s[..|s| - 1]);
      }
    }
  }

  ghost predicate AllSpaces(s: string) {
    forall i :: 0 <= i < |s| ==> IsSpace(s[i])
  }

  lemma AllSpacesCons(c: char, s: string)
    requires IsSpace(c) && AllSpaces(s)
    ensures AllSpaces([c] + s) && AllSpaces(s + [c])
  {
    hide IsSpace;
  }

  lemma {:induction false} TrimLeftParts(s: string) returns (spaces: string)
    ensures s == spaces + TrimLeft(s) && AllSpaces(spaces)
    ensures TrimLeft(s) != "" ==> !IsSpace(TrimLeft(s)[0])
  {
    hide IsSpace, AllSpaces;
    if s != "" && IsSpace(s[0]) {
      var more := TrimLeftParts(s[1..]);
      AllSpacesCons(s[0], more);
      spaces := [s[0]] + more;
      assert [s[0]] + (more + TrimLeft(s[1..])) == spaces + TrimLeft(s);
    } else {
      spaces := "";
      NoSpaces();
      assert s == "" + s;
    }
  }

  lemma NoSpaces()
    ensures AllSpaces("")
  {}

  lemma {:induction false} TrimRightParts(s: string) returns (spaces: string)
    ensures s == TrimRight(s) + spaces && AllSpaces(spaces)
    ensures TrimRight(s) != "" ==> !IsSpace(TrimRight(s)[|TrimRight(s)| - 1])
  {
    hide IsSpace, AllSpaces;
    if s != "" && IsSpace(s[|s| - 1]) {
      var front, c := s[..|s| - 1], s[|s| - 1];
      var more := TrimRightParts(front);
      AllSpacesCons(c, more);
      spaces := more + [c];
      assert s == front + [c] && (TrimRight(front) + more) + [c] == TrimRight(s) + spaces;
    } else {
      spaces := "";
      NoSpaces();
      assert s == s + "";
    }
  }

  /** A string is spaces, what trimming leaves, and spaces; what is left neither begins nor ends with a space. */
  lemma TrimmedParts(s: string) returns (left: string, right: string)
    ensures s == left + TrimSpace(s) + right && AllSpaces(left) && AllSpaces(right)
    ensures var t := TrimSpace(s); t == "" || (!IsSpace(t[0]) && !IsSpace(t[|t| - 1]))
  {
    hide IsSpace, TrimLeft, TrimRight, AllSpaces;
    left := TrimLeftParts(s);
    right := TrimRightParts(TrimLeft(s));
    var t := TrimSpace(s);
    assert s == left + (t + right) && left + (t + right) == left + t + right;
    assert t != "" ==> t[0] == TrimLeft(s)[0];
  }
}
