/// The query cleaner: delete every hyphen, then turn each parenthesis into a space.
module TextCleaning {

  /** Deletes every occurrence of `c` (a regular-expression substitution of one
      literal character by the empty string). */
  function RemoveAll(s: string, c: char): (r: string)
    ensures c !in r
    ensures |r| == |s| - multiset(s)[c]
    ensures forall x :: x in r ==> x in s
    ensures c !in s ==> r == s
  {
    if s == [] then []
    else
      assert s == [s[0]] + s[1..];
      (if s[0] == c then [] else [s[0]]) + RemoveAll(s[1..], c)
  }

  /** Replaces every occurrence of `c` by `d` (a one-character substitution). */
  function ReplaceAll(s: string, c: char, d: char): (r: string)
    ensures |r| == |s|
    ensures forall i :: 0 <= i < |s| ==> r[i] == if s[i] == c then d else s[i]
  {
    if s == [] then []
    else [if s[0] == c then d else s[0]] + ReplaceAll(s[1..], c, d)
  }

  /** Deletion distributes over concatenation; with `c !in s ==> r == s` this
      fixes the result: the characters that remain keep their order. */
  lemma {:induction false} RemoveAllAppend(a: string, b: string, c: char)
    ensures RemoveAll(a + b, c) == RemoveAll(a, c) + RemoveAll(b, c)
  {
    if a == [] {
      assert a + b == b;
    } else {
      var head: string := if a[0] == c then [] else [a[0]];
      assert (a + b)[0] == a[0] && (a + b)[1..] == a[1..] + b;
      calc {
        RemoveAll(a + b, c);
        head + RemoveAll(a[1..] + b, c);
        { RemoveAllAppend(a[1..], b, c); }
        head + (RemoveAll(a[1..], c) + RemoveAll(b, c));
        RemoveAll(a, c) + RemoveAll(b, c);
      }
    }
  }

  /** The query cleaner: the three substitutions applied in the order the script
      applies them. */
  function CleanText(s: string): (r: string)
    ensures '-' !in r && '(' !in r && ')' !in r
    ensures |r| == |s| - multiset(s)['-']
  {
    ReplaceAll(ReplaceAll(RemoveAll(s, '-'), '(', ' '), ')', ' ')
  }

  /** What cleaning does to a single character, as a string of length 0 or 1. */
  function CleanChar(c: char): string
  {
    if c == '-' then "" else if c == '(' || c == ')' then " " else [c]
  }

  /** Reference definition: clean the string one character at a time, left to right. */
  function CleanByChar(s: string): string
  {
    if s == [] then [] else CleanChar(s[0]) + CleanByChar(s[1..])
  }

  /** Cleaning the string as a whole is the same as cleaning it character by
      character: every other character is kept, in its original order. */
  lemma {:induction false} CleanTextByChar(s: string)
    ensures CleanText(s) == CleanByChar(s)
  {
    if s != [] {
      CleanTextByChar(s[1..]);
      var head: string := if s[0] == '-' then [] else [s[0]];
      var rest := RemoveAll(s[1..], '-');
      ReplaceAllAppend(head, rest, '(', ' ');
      ReplaceAllAppend(ReplaceAll(head, '(', ' '), ReplaceAll(rest, '(', ' '), ')', ' ');
    }
  }

  /** Substitution distributes over concatenation. */
  lemma {:induction false} ReplaceAllAppend(a: string, b: string, c: char, d: char)
    ensures ReplaceAll(a + b, c, d) == ReplaceAll(a, c, d) + ReplaceAll(b, c, d)
  {
    if a == [] {
      assert a + b == b;
    } else {
      var head: string := [if a[0] == c then d else a[0]];
      assert (a + b)[0] == a[0] && (a + b)[1..] == a[1..] + b;
      calc {
        ReplaceAll(a + b, c, d);
        head + ReplaceAll(a[1..] + b, c, d);
        { ReplaceAllAppend(a[1..], b, c, d); }
        head + (ReplaceAll(a[1..], c, d) + ReplaceAll(b, c, d));
        ReplaceAll(a, c, d) + ReplaceAll(b, c, d);
      }
    }
  }

  /** A string with none of the three characters is left as it is. */
  lemma {:induction false} CleanTextFixesCleanStrings(s: string)
    requires '-' !in s && '(' !in s && ')' !in s
    ensures CleanText(s) == s
  {
    CleanTextByChar(s);
    CleanByCharFixes(s);
  }

  lemma {:induction false} CleanByCharFixes(s: string)
    requires '-' !in s && '(' !in s && ')' !in s
    ensures CleanByChar(s) == s
  {
    if s != [] {
      CleanByCharFixes(s[1..]);
      assert s == [s[0]] + s[1..];
    }
  }

  /** Cleaning twice is the same as cleaning once. */
  lemma CleanTextIdempotent(s: string)
    ensures CleanText(CleanText(s)) == CleanText(s)
  {
    CleanTextFixesCleanStrings(CleanText(s));
  }
}
