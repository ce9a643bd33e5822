/** The few JavaScript values and built-ins the action's scripts rely on:
    optional values, thrown errors, `Array.prototype.find` and `filter`,
    and `String.prototype.split` and `trim`; `Join` is a helper in which
    the round trips of `split` are stated. */
module Js {

  /** A value that may be `undefined` (or `null`). */
  datatype Option<+T> = None | Some(value: T)

  /** The result of a computation that either returns a value or throws an
      error; only the error's message is kept. */
  datatype Result<+T> = Ok(value: T) | Err(error: string)

  /** The conjunction of two callbacks. */
  function And<T>(p: T -> bool, q: T -> bool): T -> bool
  {
    x => p(x) && q(x)
  }

  // ---------------------------------------------------------------------------
  // Array.prototype.find and Array.prototype.filter
  // ---------------------------------------------------------------------------

  /** `s.find(p)`: the first element on which `p` holds, or `undefined`. */
  function Find<T>(s: seq<T>, p: T -> bool): (r: Option<T>)
    ensures r.None? <==> forall i :: 0 <= i < |s| ==> !p(s[i])
    ensures r.Some? ==> r.value in s && p(r.value)
  {
    if |s| == 0 then None
    else if p(s[0]) then Some(s[0])
    else Find(s[1..], p)
  }

  /** `find` returns the element at the first position where `p` holds. */
  lemma {:induction false} FindIsFirst<T>(s: seq<T>, p: T -> bool, i: nat)
    requires i < |s| && p(s[i])
    requires forall j :: 0 <= j < i ==> !p(s[j])
    ensures Find(s, p) == Some(s[i])
  {
    if i > 0 {
      assert !p(s[0]);
      assert forall j :: 0 <= j < i - 1 ==> s[1..][j] == s[j + 1];
      FindIsFirst(s[1..], p, i - 1);
    }
  }

  /** Conversely, what `find` returns sits at a position before which `p`
      holds nowhere. */
  lemma {:induction false} FindPosition<T>(s: seq<T>, p: T -> bool) returns (i: nat)
    requires Find(s, p).Some?
    ensures i < |s| && s[i] == Find(s, p).value && p(s[i])
    ensures forall j :: 0 <= j < i ==> !p(s[j])
  {
    if p(s[0]) {
      i := 0;
    } else {
      var k := FindPosition(s[1..], p);
      i := k + 1;
      assert forall j :: 1 <= j < i ==> s[j] == s[1..][j - 1];
    }
  }

  /** Searching a sequence extended at its end: the old hit wins, otherwise
      the new element is tried. */
  lemma {:induction false} FindAppend<T>(s: seq<T>, x: T, p: T -> bool)
    ensures Find(s + [x], p) ==
            if Find(s, p).Some? then Find(s, p) else if p(x) then Some(x) else None
  {
    if |s| == 0 {
      assert [x][1..] == [];
    } else {
      assert (s + [x])[1..] == s[1..] + [x];
      FindAppend(s[1..], x, p);
    }
  }

  /** `s.filter(p)`: the elements on which `p` holds. */
  function Filter<T>(s: seq<T>, p: T -> bool): (r: seq<T>)
    ensures |r| <= |s|
    ensures forall i :: 0 <= i < |r| ==> r[i] in s && p(r[i])
    ensures forall i :: 0 <= i < |s| && p(s[i]) ==> s[i] in r
  {
    if |s| == 0 then []
    else (if p(s[0]) then [s[0]] else []) + Filter(s[1..], p)
  }

  /** Nothing passes the filter when no element passes the test. */
  lemma {:induction false} FilterNone<T>(s: seq<T>, p: T -> bool)
    requires forall i :: 0 <= i < |s| ==> !p(s[i])
    ensures Filter(s, p) == []
  {
    if |s| > 0 {
      assert forall i :: 0 <= i < |s| - 1 ==> s[1..][i] == s[i + 1];
      FilterNone(s[1..], p);
    }
  }

  /** Filtering distributes over concatenation. */
  lemma {:induction false} FilterConcat<T>(a: seq<T>, b: seq<T>, p: T -> bool)
    ensures Filter(a + b, p) == Filter(a, p) + Filter(b, p)
  {
    if |a| == 0 {
      assert a + b == b;
    } else {
      assert (a + b)[1..] == a[1..] + b;
      FilterConcat(a[1..], b, p);
    }
  }

  /** `filter` keeps the order of the list: searching the filtered list is
      searching the whole list for the first element passing both tests. */
  lemma {:induction false} FindAfterFilter<T>(s: seq<T>, p: T -> bool, q: T -> bool)
    ensures Find(Filter(s, p), q) == Find(s, And(p, q))
  {
    if |s| > 0 {
      FindAfterFilter(s[1..], p, q);
      if p(s[0]) {
        assert ([s[0]] + Filter(s[1..], p))[1..] == Filter(s[1..], p);
      } else {
        assert [] + Filter(s[1..], p) == Filter(s[1..], p);
      }
    }
  }

  // ---------------------------------------------------------------------------
  // String.prototype.split with a one-character separator, and its inverse
  // ---------------------------------------------------------------------------

  /** The pieces with the separator between them, as `parts.join(sep)`
      would give; the scripts never join, but the round trips of `split`
      are stated with it. */
  function Join(parts: seq<string>, sep: char): string
  {
    if |parts| == 0 then ""
    else if |parts| == 1 then parts[0]
    else parts[0] + [sep] + Join(parts[1..], sep)
  }

  /** `s.split(sep)`: the pieces between the separators, so there is always
      one more piece than there are separators and the empty string splits
      into one empty piece. */
  function Split(s: string, sep: char): (r: seq<string>)
    ensures |r| >= 1
    ensures forall i :: 0 <= i < |r| ==> sep !in r[i]
  {
    if |s| == 0 then [""]
    else
      var rest := Split(s[1..], sep);
      if s[0] == sep then [""] + rest
      else [[s[0]] + rest[0]] + rest[1..]
  }

  /** Joining the pieces of a split gives the string back. */
  lemma {:induction false} JoinSplit(s: string, sep: char)
    ensures Join(Split(s, sep), sep) == s
  {
    if |s| > 0 {
      var rest := Split(s[1..], sep);
      JoinSplit(s[1..], sep);
      if s[0] == sep {
        assert ([""] + rest)[1..] == rest;
        assert s == [sep] + s[1..];
      } else {
        var pieces := [[s[0]] + rest[0]] + rest[1..];
        assert pieces[1..] == rest[1..];
        assert s == [s[0]] + s[1..];
        if |rest| > 1 {
          assert Join(rest, sep) == rest[0] + [sep] + Join(rest[1..], sep);
        }
      }
    }
  }

  /** A piece without separators stays at the head of the split. */
  lemma {:induction false} SplitPrefix(w: string, t: string, sep: char)
    requires sep !in w
    ensures Split(w + t, sep) == [w + Split(t, sep)[0]] + Split(t, sep)[1..]
  {
    if |w| == 0 {
      assert w + t == t;
      assert w + Split(t, sep)[0] == Split(t, sep)[0];
      assert [Split(t, sep)[0]] + Split(t, sep)[1..] == Split(t, sep);
    } else {
      var tail := Split(t, sep);
      var s := w + t;
      assert s[0] == w[0] != sep;
      assert s[1..] == w[1..] + t;
      SplitPrefix(w[1..], t, sep);
      var rest := Split(s[1..], sep);
      assert rest == [w[1..] + tail[0]] + tail[1..];
      assert Split(s, sep) == [[s[0]] + rest[0]] + rest[1..];
      assert [w[0]] + (w[1..] + tail[0]) == w + tail[0];
    }
  }

  /** Splitting undoes joining, for pieces that hold no separator. */
  lemma {:induction false} SplitJoin(parts: seq<string>, sep: char)
    requires |parts| >= 1
    requires forall i :: 0 <= i < |parts| ==> sep !in parts[i]
    ensures Split(Join(parts, sep), sep) == parts
  {
    if |parts| == 1 {
      SplitPrefix(parts[0], "", sep);
      assert parts[0] + "" == parts[0];
    } else {
      var tail := Join(parts[1..], sep);
      SplitJoin(parts[1..], sep);
      assert ([sep] + tail)[1..] == tail;
      assert Split([sep] + tail, sep) == [""] + parts[1..];
      assert Join(parts, sep) == parts[0] + ([sep] + tail);
      SplitPrefix(parts[0], [sep] + tail, sep);
      assert parts[0] + "" == parts[0];
    }
  }

  /** A string splits into exactly one piece, itself, when it holds no
      separator. */
  lemma SplitWithoutSeparator(s: string, sep: char)
    ensures |Split(s, sep)| == 1 <==> sep !in s
    ensures sep !in s ==> Split(s, sep) == [s]
  {
    JoinSplit(s, sep);
    if sep !in s {
      SplitPrefix(s, "", sep);
      assert s + "" == s;
    }
  }

  // ---------------------------------------------------------------------------
  // String.prototype.trim
  // ---------------------------------------------------------------------------

  /** The characters `trim` removes: ECMAScript's WhiteSpace (tab, vertical
      tab, form feed, space, no-break space, byte order mark and the Unicode
      space separators) and LineTerminator (line feed, carriage return, line
      and paragraph separators). */
  predicate IsWhitespace(c: char)
  {
    var n := c as int;
    n == 0x09 || n == 0x0B || n == 0x0C || n == 0x20 || n == 0xA0 || n == 0xFEFF ||
    n == 0x1680 || (0x2000 <= n <= 0x200A) || n == 0x202F || n == 0x205F || n == 0x3000 ||
    n == 0x0A || n == 0x0D || n == 0x2028 || n == 0x2029
  }

  /** Neither end of `s` is whitespace. */
  predicate IsTrimmed(s: string)
  {
    s == [] || (!IsWhitespace(s[0]) && !IsWhitespace(s[|s| - 1]))
  }

  /** `s` with its leading whitespace removed. */
  function TrimStart(s: string): (r: string)
    ensures |r| <= |s| && r == s[|s| - |r|..]
    ensures forall k :: 0 <= k < |s| - |r| ==> IsWhitespace(s[k])
    ensures r != [] ==> !IsWhitespace(r[0])
  {
    if |s| > 0 && IsWhitespace(s[0]) then TrimStart(s[1..]) else s
  }

  /** `s` with its trailing whitespace removed. */
  function TrimEnd(s: string): (r: string)
    ensures |r| <= |s| && r == s[..|r|]
    ensures forall k :: |r| <= k < |s| ==> IsWhitespace(s[k])
    ensures r != [] ==> !IsWhitespace(r[|r| - 1])
  {
    if |s| > 0 && IsWhitespace(s[|s| - 1]) then TrimEnd(s[..|s| - 1]) else s
  }

  /** `s.trim()`: a piece of `s` that neither starts nor ends with
      whitespace. */
  function Trim(s: string): (r: string)
    ensures IsTrimmed(r)
    ensures |r| <= |s|
    ensures forall c :: c in r ==> c in s
  {
    TrimEnd(TrimStart(s))
  }

  /** `trim` removes exactly the whitespace around a trimmed core. */
  lemma TrimStripsPadding(before: string, core: string, after: string)
    requires forall k :: 0 <= k < |before| ==> IsWhitespace(before[k])
    requires forall k :: 0 <= k < |after| ==> IsWhitespace(after[k])
    requires IsTrimmed(core)
    ensures Trim(before + core + after) == core
  {
    var s := before + core + after;
    if core == [] {
      var padding := before + after;
      assert forall k :: 0 <= k < |padding| ==> IsWhitespace(padding[k]) by {
        forall k | 0 <= k < |padding|
          ensures IsWhitespace(padding[k])
        {
          if k < |before| {
            assert padding[k] == before[k];
          } else {
            assert padding[k] == after[k - |before|];
          }
        }
      }
      assert s == padding + [];
      TrimStartPadding(padding, []);
      assert TrimStart(s) == [];
    } else {
      assert s == before + (core + after);
      TrimStartPadding(before, core + after);
      assert TrimStart(s) == core + after;
      TrimEndPadding(core, after);
    }
  }

  lemma {:induction false} TrimStartPadding(before: string, rest: string)
    requires forall k :: 0 <= k < |before| ==> IsWhitespace(before[k])
    requires rest == [] || !IsWhitespace(rest[0])
    ensures TrimStart(before + rest) == rest
  {
    if |before| == 0 {
      assert before + rest == rest;
    } else {
      assert (before + rest)[1..] == before[1..] + rest;
      TrimStartPadding(before[1..], rest);
    }
  }

  lemma {:induction false} TrimEndPadding(rest: string, after: string)
    requires forall k :: 0 <= k < |after| ==> IsWhitespace(after[k])
    requires rest == [] || !IsWhitespace(rest[|rest| - 1])
    ensures TrimEnd(rest + after) == rest
  {
    if |after| == 0 {
      assert rest + after == rest;
    } else {
      var shorter := rest + after[..|after| - 1];
      assert (rest + after)[..|rest + after| - 1] == shorter;
      TrimEndPadding(rest, after[..|after| - 1]);
    }
  }

  /** Trimming twice is trimming once. */
  lemma TrimIdempotent(s: string)
    ensures Trim(Trim(s)) == Trim(s)
  {
  }
}
