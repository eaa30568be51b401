/** String helpers the booking code relies on: ASCII case folding (for the
    case-insensitive e-mail match) and JavaScript's `String.prototype.split`
    on a one-character separator (for reading the time back out of a slot id). */
module Text {

  /** ASCII lower-casing of one character; every other character is kept. */
  function Lower(c: char): (r: char)
    ensures 'A' <= c <= 'Z' ==> 'a' <= r <= 'z' && r as int - c as int == 32
    ensures !('A' <= c <= 'Z') ==> r == c
  {
    if 'A' <= c <= 'Z' then (c as int + 32) as char else c
  }

  function LowerStr(s: string): (r: string)
    ensures |r| == |s|
    ensures forall i :: 0 <= i < |s| ==> r[i] == Lower(s[i])
  {
    seq(|s|, i requires 0 <= i < |s| => Lower(s[i]))
  }

  /** Two strings are equal once ASCII letters are folded to lower case. */
  predicate EqualsIgnoreCase(a: string, b: string) {
    LowerStr(a) == LowerStr(b)
  }

  /** Number of occurrences of `c` in `s`. */
  function Count(s: string, c: char): nat
    decreases |s|
  {
    if |s| == 0 then 0
    else Count(s[..|s| - 1], c) + (if s[|s| - 1] == c then 1 else 0)
  }

  /** A character that occurs a positive number of times occurs. */
  lemma {:induction false} CountedCharOccurs(s: string, c: char)
    ensures Count(s, c) > 0 ==> c in s
    decreases |s|
  {
    if |s| > 0 {
      var pre := s[..|s| - 1];
      CountedCharOccurs(pre, c);
      if c in pre {
        var k :| 0 <= k < |pre| && pre[k] == c;
        assert s[k] == c;
      }
      assert s[|s| - 1] in s;
    }
  }

  /** The parts after one more character `c`: a separator opens a new empty
      part, any other character extends the last part. */
  function Extend(parts: seq<string>, c: char, sep: char): (r: seq<string>)
    requires |parts| > 0
    ensures c == sep ==> r == parts + [""]
    ensures c != sep ==> |r| == |parts| && r[..|r| - 1] == parts[..|parts| - 1] && r[|r| - 1] == parts[|parts| - 1] + [c]
  {
    if c == sep then parts + [""] else parts[..|parts| - 1] + [parts[|parts| - 1] + [c]]
  }

  /** `s.split(sep)`: the maximal runs between separators, in order. The empty
      string splits into one empty part, as in JavaScript. Defined by what
      appending one character does to the parts. */
  function Split(s: string, sep: char): (parts: seq<string>)
    ensures |parts| == Count(s, sep) + 1
    decreases |s|
  {
    if |s| == 0 then [""]
    else Extend(Split(s[..|s| - 1], sep), s[|s| - 1], sep)
  }

  /** Appending one character extends the parts of a split. */
  lemma SplitSnoc(s: string, c: char, sep: char)
    ensures Split(s + [c], sep) == Extend(Split(s, sep), c, sep)
  {
    assert (s + [c])[..|s + [c]| - 1] == s;
  }

  /** No part of a split contains the separator. */
  lemma {:induction false} SplitPartsLackSep(s: string, sep: char)
    ensures forall k :: 0 <= k < |Split(s, sep)| ==> sep !in Split(s, sep)[k]
    decreases |s|
  {
    if |s| > 0 {
      var pre, c := s[..|s| - 1], s[|s| - 1];
      assert s == pre + [c];
      SplitPartsLackSep(pre, sep);
      SplitSnoc(pre, c, sep);
      var init := Split(pre, sep);
      var parts := Extend(init, c, sep);
      forall k | 0 <= k < |parts| ensures sep !in parts[k] {
        if k < |parts| - 1 {
          assert parts[k] == parts[..|parts| - 1][k];
        } else if c != sep {
          var u := init[|init| - 1];
          assert sep !in u;
          forall i | 0 <= i < |u + [c]| ensures (u + [c])[i] != sep {
            if i < |u| { assert (u + [c])[i] == u[i]; }
          }
        }
      }
    }
  }

  /** `parts.join(sep)`, the inverse of Split. */
  function Join(parts: seq<string>, sep: char): string
    requires |parts| >= 1
    decreases |parts|
  {
    if |parts| == 1 then parts[0]
    else Join(parts[..|parts| - 1], sep) + [sep] + parts[|parts| - 1]
  }

  /** Joining extended parts appends the character. */
  lemma {:induction false} JoinExtend(parts: seq<string>, c: char, sep: char)
    requires |parts| > 0
    ensures Join(Extend(parts, c, sep), sep) == Join(parts, sep) + [c]
  {
    var r := Extend(parts, c, sep);
    if c == sep {
      assert r[..|r| - 1] == parts;
    } else if |parts| > 1 {
      var front := parts[..|parts| - 1];
      assert r[..|r| - 1] == front;
      assert Join(r, sep) == Join(front, sep) + [sep] + (parts[|parts| - 1] + [c]);
    }
  }

  /** Joining the parts of a split with the same separator gives back the string. */
  lemma {:induction false} JoinSplit(s: string, sep: char)
    ensures Join(Split(s, sep), sep) == s
    decreases |s|
  {
    if |s| > 0 {
      var pre, c := s[..|s| - 1], s[|s| - 1];
      assert s == pre + [c];
      JoinSplit(pre, sep);
      SplitSnoc(pre, c, sep);
      JoinExtend(Split(pre, sep), c, sep);
    }
  }

  /** A string without the separator is a single part. */
  lemma {:induction false} SplitNoSep(s: string, sep: char)
    requires sep !in s
    ensures Split(s, sep) == [s]
    decreases |s|
  {
    if |s| > 0 {
      var pre, c := s[..|s| - 1], s[|s| - 1];
      assert sep !in pre by {
        forall k | 0 <= k < |pre| ensures pre[k] != sep {
          assert pre[k] == s[k];
        }
      }
      assert c in s;
      SplitNoSep(pre, sep);
      assert s == pre + [c];
      SplitSnoc(pre, c, sep);
    }
  }

  /** Extending the parts of `pa + pb` extends the parts of `pb`. */
  lemma ExtendAppend(pa: seq<string>, pb: seq<string>, c: char, sep: char)
    requires |pb| > 0
    ensures Extend(pa + pb, c, sep) == pa + Extend(pb, c, sep)
  {
    var p := pa + pb;
    if c != sep {
      assert p[..|p| - 1] == pa + pb[..|pb| - 1];
    }
  }

  /** Splitting distributes over a separator: the parts of `a + sep + b` are
      the parts of `a` followed by the parts of `b`. */
  lemma {:induction false} SplitAtSep(a: string, b: string, sep: char)
    ensures Split(a + [sep] + b, sep) == Split(a, sep) + Split(b, sep)
    decreases |b|
  {
    if |b| == 0 {
      assert a + [sep] + b == a + [sep];
      SplitSnoc(a, sep, sep);
    } else {
      var b', c := b[..|b| - 1], b[|b| - 1];
      SplitAtSep(a, b', sep);
      var x := a + [sep] + b';
      assert b == b' + [c];
      assert a + [sep] + b == x + [c];
      SplitSnoc(x, c, sep);
      SplitSnoc(b', c, sep);
      ExtendAppend(Split(a, sep), Split(b', sep), c, sep);
    }
  }

  /** The last part of a split is the suffix after the last separator: it ends
      the string and, unless it is the whole string, a separator precedes it. */
  lemma {:induction false} SplitLastIsSuffix(s: string, sep: char)
    ensures var parts := Split(s, sep);
            var t := parts[|parts| - 1];
            |t| <= |s| && s[|s| - |t|..] == t && (|t| < |s| ==> s[|s| - |t| - 1] == sep)
    decreases |s|
  {
    if |s| > 0 {
      var pre, c := s[..|s| - 1], s[|s| - 1];
      assert s == pre + [c];
      SplitLastIsSuffix(pre, sep);
      SplitSnoc(pre, c, sep);
      var init := Split(pre, sep);
      var u := init[|init| - 1];
      if c != sep {
        var t := u + [c];
        assert s[|s| - |t|..] == pre[|pre| - |u|..] + [c];
        if |t| < |s| {
          assert s[|s| - |t| - 1] == pre[|pre| - |u| - 1];
        }
      }
    }
  }
}
