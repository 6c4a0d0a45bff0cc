/** `String.prototype.split(sep)` and `Array.prototype.join(sep)` for a one-character
    separator, and the two file-name idioms built from them:
    `name.split('.').slice(0, -1).join('.')` and `name.split('.').pop()`. */
module FileNames {

  /** `s.split([sep])`: the maximal separator-free pieces, in order; never empty. */
  function Split(s: string, sep: char): (parts: seq<string>)
    ensures |parts| >= 1
    ensures forall i :: 0 <= i < |parts| ==> sep !in parts[i]
    ensures sep !in s ==> parts == [s]
    ensures sep in s ==> |parts| >= 2
    decreases |s|
  {
    if |s| == 0 then [""]
    else
      var rest := Split(s[1..], sep);
      assert s == [s[0]] + s[1..];
      if s[0] == sep then [""] + rest
      else [[s[0]] + rest[0]] + rest[1..]
  }

  /** `parts.join([sep])`; joining no parts gives the empty string. */
  function Join(parts: seq<string>, sep: char): string
    decreases |parts|
  {
    if |parts| == 0 then ""
    else if |parts| == 1 then parts[0]
    else parts[0] + [sep] + Join(parts[1..], sep)
  }

  /** Joining the pieces puts the separators back exactly where they were. */
  lemma {:induction false} JoinSplit(s: string, sep: char)
    ensures Join(Split(s, sep), sep) == s
    decreases |s|
  {
    if |s| > 0 {
      var rest := Split(s[1..], sep);
      JoinSplit(s[1..], sep);
      if s[0] == sep {
        assert ([""] + rest)[1..] == rest;
      } else {
        var parts := [[s[0]] + rest[0]] + rest[1..];
        assert parts[1..] == rest[1..];
        if |rest| > 1 {
          assert Join(rest, sep) == rest[0] + [sep] + Join(rest[1..], sep);
        }
      }
    }
  }

  /** Splitting at a separator splits the two sides independently. */
  lemma {:induction false} SplitAround(a: string, b: string, sep: char)
    ensures Split(a + [sep] + b, sep) == Split(a, sep) + Split(b, sep)
    decreases |a|
  {
    if |a| == 0 {
      assert a + [sep] + b == [sep] + b;
      SplitCons(sep, b, sep);
    } else {
      SplitAround(a[1..], b, sep);
      SplitAroundStep(a[0], a[1..], b, sep);
      Regroup(a, b, sep);
    }
  }

  lemma Regroup(a: string, b: string, sep: char)
    requires |a| > 0
    ensures a == [a[0]] + a[1..]
    ensures a + [sep] + b == [a[0]] + (a[1..] + [sep] + b)
  {
  }

  /** The inductive step of `SplitAround`: the claim for `[c] + a` follows from the claim
      for `a`. */
  lemma SplitAroundStep(c: char, a: string, b: string, sep: char)
    requires Split(a + [sep] + b, sep) == Split(a, sep) + Split(b, sep)
    ensures Split([c] + (a + [sep] + b), sep) == Split([c] + a, sep) + Split(b, sep)
  {
    SplitCons(c, a + [sep] + b, sep);
    SplitCons(c, a, sep);
    if c == sep {
      ConsAppend("", Split(a, sep), Split(b, sep));
    } else {
      MergeFirst([c], Split(a, sep), Split(b, sep));
    }
  }

  /** Extending the first piece commutes with appending more pieces. */
  lemma MergeFirst(prefix: string, head: seq<string>, tail: seq<string>)
    requires |head| > 0
    ensures [prefix + (head + tail)[0]] + (head + tail)[1..]
              == ([prefix + head[0]] + head[1..]) + tail
  {
    assert (head + tail)[0] == head[0];
    assert (head + tail)[1..] == head[1..] + tail;
  }

  /** One step of `Split`: a leading separator closes an empty piece, any other character
      opens the first piece of the rest. */
  lemma SplitCons(c: char, t: string, sep: char)
    ensures Split([c] + t, sep)
              == if c == sep then [""] + Split(t, sep)
                 else [[c] + Split(t, sep)[0]] + Split(t, sep)[1..]
  {
    assert ([c] + t)[0] == c && ([c] + t)[1..] == t;
  }

  lemma ConsAppend<T>(x: T, p: seq<T>, q: seq<T>)
    ensures [x] + (p + q) == ([x] + p) + q
  {
  }

  /** Dropping the last of the pieces and joining again, as `slice(0, -1)` followed by
      `join` does, removes the last separator and everything after it. */
  lemma {:induction false} JoinAllButLast(parts: seq<string>, sep: char)
    requires |parts| >= 2
    ensures Join(parts, sep) == Join(parts[..|parts| - 1], sep) + [sep] + parts[|parts| - 1]
    decreases |parts|
  {
    if |parts| > 2 {
      JoinAllButLast(parts[1..], sep);
      assert parts[1..][..|parts| - 2] == parts[..|parts| - 1][1..];
    }
  }

  /** `name.split('.').pop()`: the text after the last dot, or the whole name without one. */
  function Extension(name: string): (ext: string)
    ensures '.' !in ext
    ensures '.' !in name ==> ext == name
  {
    var parts := Split(name, '.');
    parts[|parts| - 1]
  }

  /** `name.split('.').slice(0, -1).join('.')`: the name up to its last dot, and the empty
      string for a name without a dot. */
  function StripExtension(name: string): (base: string)
    ensures '.' !in name ==> base == ""
    ensures '.' in name ==> base + "." + Extension(name) == name
  {
    var parts := Split(name, '.');
    if '.' in name then
      JoinAllButLast(parts, '.');
      JoinSplit(name, '.');
      Join(parts[..|parts| - 1], '.')
    else
      Join(parts[..|parts| - 1], '.')
  }

  /** The decomposition at the last dot is the one the idioms find: whatever `base` is,
      a dot-free `ext` after a dot comes back out as the extension and `base` as the rest. */
  lemma SplitAtLastDot(base: string, ext: string)
    requires '.' !in ext
    ensures Extension(base + "." + ext) == ext
    ensures StripExtension(base + "." + ext) == base
  {
    var name := base + "." + ext;
    SplitAround(base, ext, '.');
    var parts := Split(name, '.');
    assert parts == Split(base, '.') + [ext];
    assert parts[..|parts| - 1] == Split(base, '.');
    JoinSplit(base, '.');
    assert name[|base|] == '.';
  }
}
