/**
 * The two JavaScript string primitives the name field uses, for a separator
 * of one character: `String.prototype.split(sep)` and `Array.prototype.join(sep)`.
 * JavaScript strings are sequences of UTF-16 code units; here `char` is a
 * Unicode scalar value, which makes no difference to splitting on U+0020.
 */
module JsString {

  /** `s.split(sep)`: the maximal runs free of `sep`, in order. A string with
      n separators has n + 1 pieces, so "" gives [""] and " " gives ["", ""]. */
  function Split(s: string, sep: char): (parts: seq<string>)
    ensures |parts| >= 1
    ensures forall k :: 0 <= k < |parts| ==> sep !in parts[k]
    ensures |parts[0]| <= |s| && s[..|parts[0]|] == parts[0]
    ensures |parts| == 1 <==> sep !in s
    decreases |s|
  {
    if s == [] then [[]]
    else
      var rest := Split(s[1..], sep);
      if s[0] == sep then [[]] + rest
      else [[s[0]] + rest[0]] + rest[1..]
  }

  /** `parts.join(sep)`: the pieces with one `sep` between neighbours. The
      text starts with the first piece, and a separator follows it when there
      is a second. */
  function Join(parts: seq<string>, sep: char): (s: string)
    ensures |parts| >= 1 ==> |parts[0]| <= |s| && s[..|parts[0]|] == parts[0]
    ensures |parts| >= 2 ==> |parts[0]| < |s| && s[|parts[0]|] == sep
  {
    if |parts| == 0 then []
    else if |parts| == 1 then parts[0]
    else parts[0] + [sep] + Join(parts[1..], sep)
  }

  /** The joined text ends with the last piece. */
  lemma {:induction false} JoinEndsWithLast(parts: seq<string>, sep: char)
    requires |parts| >= 1
    ensures var final := parts[|parts| - 1];
      |final| <= |Join(parts, sep)| && Join(parts, sep)[|Join(parts, sep)| - |final|..] == final
    decreases |parts|
  {
    if |parts| > 1 {
      JoinEndsWithLast(parts[1..], sep);
      var tail := Join(parts[1..], sep);
      var final := parts[|parts| - 1];
      assert parts[1..][|parts| - 2] == final;
      assert Join(parts, sep) == (parts[0] + [sep]) + tail;
      assert (parts[0] + [sep] + tail)[|parts[0] + [sep] + tail| - |final|..] == tail[|tail| - |final|..];
    }
  }

  /** Splitting a string free of the separator yields the string itself. */
  lemma {:induction false} SplitNoSeparator(w: string, sep: char)
    requires sep !in w
    ensures Split(w, sep) == [w]
    decreases |w|
  {
    if w != [] {
      SplitNoSeparator(w[1..], sep);
      assert [w[0]] + w[1..] == w;
    }
  }

  /** Splitting at the first separator: the piece before it comes first,
      the rest is split on its own. */
  lemma {:induction false} SplitAtFirst(w: string, sep: char, u: string)
    requires sep !in w
    ensures Split(w + [sep] + u, sep) == [w] + Split(u, sep)
    decreases |w|
  {
    var s := w + [sep] + u;
    if w == [] {
      assert s[1..] == u;
    } else {
      assert s[1..] == w[1..] + [sep] + u;
      SplitAtFirst(w[1..], sep, u);
      assert [s[0]] + w[1..] == w;
    }
  }

  /** Joining a piece in front of a non-empty list puts a separator between. */
  lemma JoinCons(w: string, parts: seq<string>, sep: char)
    requires |parts| >= 1
    ensures Join([w] + parts, sep) == w + [sep] + Join(parts, sep)
  {
  }

  /** A character put in front of the first piece ends up in front of the join. */
  lemma JoinPrepend(c: char, parts: seq<string>, sep: char)
    requires |parts| >= 1
    ensures Join([[c] + parts[0]] + parts[1..], sep) == [c] + Join(parts, sep)
  {
  }

  /** Joining the pieces of a split gives back the original string. */
  lemma {:induction false} JoinSplit(s: string, sep: char)
    ensures Join(Split(s, sep), sep) == s
    decreases |s|
  {
    if s != [] {
      var rest := Split(s[1..], sep);
      JoinSplit(s[1..], sep);
      if s[0] == sep {
        assert Split(s, sep) == [[]] + rest;
        JoinCons([], rest, sep);
        assert Join(Split(s, sep), sep) == [] + [sep] + s[1..];
      } else {
        assert Split(s, sep) == [[s[0]] + rest[0]] + rest[1..];
        JoinPrepend(s[0], rest, sep);
        assert Join(Split(s, sep), sep) == [s[0]] + s[1..];
      }
      assert [s[0]] + s[1..] == s;
    }
  }

  /** Splitting a join of separator-free pieces gives back the pieces. */
  lemma {:induction false} SplitJoin(parts: seq<string>, sep: char)
    requires |parts| >= 1
    requires forall k :: 0 <= k < |parts| ==> sep !in parts[k]
    ensures Split(Join(parts, sep), sep) == parts
    decreases |parts|
  {
    if |parts| == 1 {
      SplitNoSeparator(parts[0], sep);
    } else {
      var tail := Join(parts[1..], sep);
      assert Join(parts, sep) == parts[0] + [sep] + tail;
      SplitJoin(parts[1..], sep);
      SplitAtFirst(parts[0], sep, tail);
      assert [parts[0]] + parts[1..] == parts;
    }
  }

  /** The string ends with the separator exactly when its split ends with an
      empty piece that follows at least one separator. */
  lemma {:induction false} EndsWithSeparator(s: string, sep: char)
    ensures (|s| > 0 && s[|s| - 1] == sep)
        <==> (|Split(s, sep)| > 1 && Split(s, sep)[|Split(s, sep)| - 1] == [])
    decreases |s|
  {
    if s != [] {
      var rest := Split(s[1..], sep);
      EndsWithSeparator(s[1..], sep);
      var parts := Split(s, sep);
      if s[0] == sep {
        assert parts[|parts| - 1] == rest[|rest| - 1];
        if |s| == 1 {
          assert s[1..] == [];
        }
      } else {
        if |rest| > 1 {
          assert parts[|parts| - 1] == rest[|rest| - 1];
        }
        if |s| > 1 {
          assert s[1..][|s| - 2] == s[|s| - 1];
        }
      }
    }
  }
}
