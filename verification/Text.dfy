/** The string operations the service relies on: trimming, splitting and joining. */
module Text {

  datatype Option<+T> = None | Some(value: T)

  /** White space as Unicode defines it, which is what trimming removes. */
  predicate IsSpace(c: char) {
    || c == ' ' || '\t' <= c <= '\r' || c == '\U{0085}' || c == '\U{00A0}' || c == '\U{1680}'
    || '\U{2000}' <= c <= '\U{200A}' || '\U{2028}' <= c <= '\U{2029}'
    || c == '\U{202F}' || c == '\U{205F}' || c == '\U{3000}'
  }

  function TrimLeft(s: string): (r: string) {
    if s != "" && IsSpace(s[0]) then TrimLeft(s[1..]) else s
  }

  function TrimRight(s: string): (r: string) {
    if s != "" && IsSpace(s[|s| - 1]) then TrimRight(s[..|s| - 1]) else s
  }

  function TrimSpace(s: string): (r: string) {
    TrimRight(TrimLeft(s))
  }

  function TrimSlashes(s: string): (r: string) {
    if s != "" && s[|s| - 1] == '/' then TrimSlashes(s[..|s| - 1]) else s
  }

  lemma {:induction false} TrimRightIs(s: string)
    ensures TrimRight(s) <= s && (TrimRight(s) != "" ==> !IsSpace(TrimRight(s)[|TrimRight(s)| - 1]))
  {
    if s != "" && IsSpace(s[|s| - 1]) { TrimRightIs(s[..|s| - 1]); }
  }

  lemma {:induction false} TrimLeftIs(s: string)
    ensures TrimLeft(s) != "" ==> !IsSpace(TrimLeft(s)[0])
  {
    if s != "" && IsSpace(s[0]) { TrimLeftIs(s[1..]); }
  }

  predicate Blank(s: string) { forall i :: 0 <= i < |s| ==> IsSpace(s[i]) }

  lemma {:induction false} CutLeft(s: string) returns (front: string)
    ensures s == front + TrimLeft(s) && Blank(front)
  {
    front := "";
    if s != "" && IsSpace(s[0]) {
      var rest := CutLeft(s[1..]);
      front := [s[0]] + rest;
    }
  }

  lemma {:induction false} CutRight(s: string) returns (back: string)
    ensures s == TrimRight(s) + back && Blank(back)
  {
    back := "";
    if s != "" && IsSpace(s[|s| - 1]) {
      var rest := CutRight(s[..|s| - 1]);
      back := rest + [s[|s| - 1]];
    }
  }

  /** Trimming cuts off nothing but white space, and leaves none at either end. */
  lemma TrimSpaceIs(s: string) returns (front: string, back: string)
    ensures var t := TrimSpace(s);
            && s == front + t + back && Blank(front) && Blank(back)
            && (t != "" ==> !IsSpace(t[0]) && !IsSpace(t[|t| - 1]))
  {
    front := CutLeft(s);
    back := CutRight(TrimLeft(s));
    TrimLeftIs(s);
    TrimRightIs(TrimLeft(s));
  }

  /** Trimming slashes cuts off the slashes at the end, and nothing else. */
  lemma {:induction false} TrimSlashesIs(s: string) returns (back: string)
    ensures var t := TrimSlashes(s);
            && s == t + back && (forall i :: 0 <= i < |back| ==> back[i] == '/') && (t != "" ==> t[|t| - 1] != '/')
  {
    back := "";
    if s != "" && s[|s| - 1] == '/' {
      var rest := TrimSlashesIs(s[..|s| - 1]);
      back := rest + "/";
    }
  }

  /** Trimming twice is trimming once. */
  lemma TrimmedStays(s: string)
    ensures TrimSpace(TrimSpace(s)) == TrimSpace(s)
  {
    TrimLeftIs(s);
    TrimRightIs(TrimLeft(s));
  }

  function Split(s: string, sep: char): (parts: seq<string>)
    ensures parts != []
  {
    if s == "" then [""]
    else
      var rest := Split(s[1..], sep);
      if s[0] == sep then [""] + rest
      else [[s[0]] + rest[0]] + rest[1..]
  }

  function Join(parts: seq<string>, sep: char): (s: string)
    requires parts != []
  {
    if |parts| == 1 then parts[0] else parts[0] + [sep] + Join(parts[1..], sep)
  }

  predicate Free(parts: seq<string>, sep: char) {
    forall i :: 0 <= i < |parts| ==> sep !in parts[i]
  }

  /** What one more character in front does to the parts. */
  function Prepend(c: char, parts: seq<string>, sep: char): seq<string>
    requires parts != []
  {
    if c == sep then [""] + parts else [[c] + parts[0]] + parts[1..]
  }

  lemma SplitCons(c: char, s: string, sep: char)
    ensures Split([c] + s, sep) == Prepend(c, Split(s, sep), sep)
  {
    assert ([c] + s)[1..] == s;
  }

  lemma JoinPrepend(c: char, parts: seq<string>, sep: char)
    requires parts != []
    ensures Join(Prepend(c, parts, sep), sep) == [c] + Join(parts, sep)
  {
    if c == sep {
      assert ([""] + parts)[1..] == parts;
    } else {
      var longer := [[c] + parts[0]] + parts[1..];
      assert longer[1..] == parts[1..];
    }
  }

  lemma FreePrepend(c: char, parts: seq<string>, sep: char)
    requires parts != [] && Free(parts, sep)
    ensures Free(Prepend(c, parts, sep), sep)
  {}

  lemma {:induction false} JoinOfSplit(s: string, sep: char)
    ensures Join(Split(s, sep), sep) == s
    ensures Free(Split(s, sep), sep)
  {
    if s != "" {
      var c, tail := s[0], s[1..];
      JoinOfSplit(tail, sep);
      assert s == [c] + tail;
      SplitCons(c, tail, sep);
      JoinPrepend(c, Split(tail, sep), sep);
      FreePrepend(c, Split(tail, sep), sep);
    }
  }

  lemma PrependLeft(c: char, left: seq<string>, right: seq<string>, sep: char)
    requires left != []
    ensures Prepend(c, left + right, sep) == Prepend(c, left, sep) + right
  {
    assert (left + right)[1..] == left[1..] + right;
  }

  /** Splitting a text that starts with a separator-free word keeps the word in the first part. */
  lemma {:induction false} SplitWord(word: string, s: string, sep: char)
    requires sep !in word
    ensures var rest := Split(s, sep); Split(word + s, sep) == [word + rest[0]] + rest[1..]
  {
    var rest := Split(s, sep);
    if word == "" {
      assert word + s == s && word + rest[0] == rest[0];
    } else {
      var c, tail := word[0], word[1..];
      SplitWord(tail, s, sep);
      assert word + s == [c] + (tail + s);
      SplitCons(c, tail + s, sep);
      assert word + rest[0] == [c] + (tail + rest[0]);
    }
  }

  lemma {:induction false} SplitOfJoin(parts: seq<string>, sep: char)
    requires parts != [] && Free(parts, sep)
    ensures Split(Join(parts, sep), sep) == parts
  {
    if |parts| == 1 {
      SplitWord(parts[0], "", sep);
      assert parts[0] + "" == parts[0];
    } else {
      SplitOfJoin(parts[1..], sep);
      var tail := [sep] + Join(parts[1..], sep);
      assert tail[1..] == Join(parts[1..], sep);
      var rest := [""] + parts[1..];
      assert Split(tail, sep) == rest;
      SplitWord(parts[0], tail, sep);
      assert parts[0] + [sep] + Join(parts[1..], sep) == parts[0] + tail;
      assert parts[0] + rest[0] == parts[0] && rest[1..] == parts[1..];
      assert parts == [parts[0]] + parts[1..];
    }
  }

  /** A separator cuts a text into two independently split halves. */
  lemma {:induction false} SplitCut(a: string, b: string, sep: char)
    ensures Split(a + [sep] + b, sep) == Split(a, sep) + Split(b, sep)
  {
    if a == "" {
      assert a + [sep] + b == [sep] + b;
      SplitCons(sep, b, sep);
    } else {
      var c, tail := a[0], a[1..];
      SplitCut(tail, b, sep);
      assert a + [sep] + b == [c] + (tail + [sep] + b) && a == [c] + tail;
      SplitCons(c, tail + [sep] + b, sep);
      SplitCons(c, tail, sep);
      PrependLeft(c, Split(tail, sep), Split(b, sep), sep);
    }
  }
}
