/** The string operations that several components use: splitting and joining on one separator. */
module Strings {

  /** Keeps empty parts, so it always returns at least one part. */
  function Split(s: string, separator: char): (parts: seq<string>)
    ensures |parts| >= 1
  {
    if s == "" then [""]
    else
      var rest := Split(s[1..], separator);
      if s[0] == separator then [""] + rest else [[s[0]] + rest[0]] + rest[1..]
  }

  function Join(parts: seq<string>, separator: string): string {
    if parts == [] then ""
    else if |parts| == 1 then parts[0]
    else parts[0] + separator + Join(parts[1..], separator)
  }

  lemma {:induction false} JoinSnoc(parts: seq<string>, last: string, separator: string)
    ensures Join(parts + [last], separator) == if parts == [] then last else Join(parts, separator) + separator + last
  {
    if |parts| == 1 {
      assert parts + [last] == [parts[0], last];
      assert Join([last], separator) == last;
    } else if |parts| > 1 {
      assert (parts + [last])[1..] == parts[1..] + [last];
      JoinSnoc(parts[1..], last, separator);
    }
  }

  lemma JoinPair(parts: seq<string>, separator: string)
    requires |parts| == 2
    ensures Join(parts, separator) == parts[0] + separator + parts[1]
  {
    assert Join(parts[1..], separator) == parts[1];
  }

  lemma {:induction false} SplitWhole(s: string, separator: char)
    requires separator !in s
    ensures Split(s, separator) == [s]
  {
    if s != "" {
      SplitWhole(s[1..], separator);
      assert s == [s[0]] + s[1..];
    }
  }

  lemma {:induction false} SplitFirst(first: string, rest: string, separator: char)
    requires separator !in first
    ensures Split(first + [separator] + rest, separator) == [first] + Split(rest, separator)
  {
    var s := first + [separator] + rest;
    if first == "" {
      assert s[1..] == rest;
    } else {
      assert s[1..] == first[1..] + [separator] + rest;
      SplitFirst(first[1..], rest, separator);
      assert first == [first[0]] + first[1..];
    }
  }

  lemma {:induction false} SplitJoined(parts: seq<string>, separator: char)
    requires parts != [] && forall p :: p in parts ==> separator !in p
    ensures Split(Join(parts, [separator]), separator) == parts
  {
    if |parts| == 1 {
      SplitWhole(parts[0], separator);
    } else {
      assert forall p :: p in parts[1..] ==> p in parts;
      SplitJoined(parts[1..], separator);
      SplitFirst(parts[0], Join(parts[1..], [separator]), separator);
    }
  }

  lemma JoinedSplit(s: string, separator: char)
    ensures Join(Split(s, separator), [separator]) == s
    ensures forall p :: p in Split(s, separator) ==> separator !in p
  {
    JoinSplitText(s, separator);
    SplitIsClean(s, separator);
  }

  lemma {:induction false} JoinSplitText(s: string, separator: char)
    ensures Join(Split(s, separator), [separator]) == s
  {
    if s != "" {
      var rest := Split(s[1..], separator);
      JoinSplitText(s[1..], separator);
      assert s == [s[0]] + s[1..];
      if s[0] == separator {
        assert Split(s, separator)[1..] == rest;
      } else {
        JoinLonger(s[0], rest, [separator]);
      }
    }
  }

  lemma JoinLonger(c: char, parts: seq<string>, separator: string)
    requires parts != []
    ensures Join([[c] + parts[0]] + parts[1..], separator) == [c] + Join(parts, separator)
  {
    var longer := [[c] + parts[0]] + parts[1..];
    assert longer[1..] == parts[1..];
    if |parts| > 1 {
      assert Join(longer, separator) == [c] + parts[0] + separator + Join(parts[1..], separator);
    }
  }

  lemma {:induction false} SplitIsClean(s: string, separator: char)
    ensures forall p :: p in Split(s, separator) ==> separator !in p
  {
    if s != "" {
      SplitIsClean(s[1..], separator);
    }
  }

  function Reverse<T>(s: seq<T>): (r: seq<T>)
    ensures |r| == |s|
  {
    if s == [] then [] else Reverse(s[1..]) + [s[0]]
  }

  lemma {:induction false} ReverseAt<T>(s: seq<T>, k: nat)
    requires k < |s|
    ensures Reverse(s)[k] == s[|s| - 1 - k]
  {
    if k < |s| - 1 {
      ReverseAt(s[1..], k);
    }
  }

  lemma ReverseTwice<T>(s: seq<T>)
    ensures Reverse(Reverse(s)) == s
  {
    forall k | 0 <= k < |s| ensures Reverse(Reverse(s))[k] == s[k] {
      ReverseAt(Reverse(s), k);
      ReverseAt(s, |s| - 1 - k);
    }
  }

  function ToLowerChar(c: char): char {
    if 'A' <= c <= 'Z' then (c as int - 'A' as int + 'a' as int) as char else c
  }

  function ToUpperChar(c: char): char {
    if 'a' <= c <= 'z' then (c as int - 'a' as int + 'A' as int) as char else c
  }

  function ToLower(s: string): string {
    seq(|s|, i requires 0 <= i < |s| => ToLowerChar(s[i]))
  }

  function ToUpper(s: string): string {
    seq(|s|, i requires 0 <= i < |s| => ToUpperChar(s[i]))
  }

  /** Capitals and small letters of the alphabet correspond; other characters have no case. */
  lemma LetterCase(c: char, k: nat)
    requires k < 26
    ensures ToUpperChar(('a' as nat + k) as char) == ('A' as nat + k) as char
    ensures ToLowerChar(('A' as nat + k) as char) == ('a' as nat + k) as char
    ensures !('a' <= c <= 'z') ==> ToUpperChar(c) == c
    ensures !('A' <= c <= 'Z') ==> ToLowerChar(c) == c
  {
  }

  predicate IsSpace(c: char) {
    c == ' ' || '\t' <= c <= '\r'
  }

  function SkipSpaces(s: string): string {
    if s != "" && IsSpace(s[0]) then SkipSpaces(s[1..]) else s
  }
}
