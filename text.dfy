/**
 * String utilities shared by the shell: substring search (the `strstr` test
 * used by `buscar`) and the split of a string into maximal runs of
 * non-delimiter characters (the tokenizer and the word count of
 * `estadisticas` are both such splits, with different delimiter sets).
 */
module Text {

  /** `t` occurs in `s` at position `i`. */
  ghost predicate OccursAt(t: string, s: string, i: int)
  {
    0 <= i && i + |t| <= |s| && s[i..i + |t|] == t
  }

  /** `strstr(s, t) != NULL`: a scan of `s` from the left for a block equal to `t`. */
  function Occurs(t: string, s: string): bool
    decreases |s|
  {
    if |t| > |s| then false
    else if s[..|t|] == t then true
    else Occurs(t, s[1..])
  }

  /** The scan finds `t` exactly when `t` occurs somewhere in `s`. */
  lemma {:induction false} OccursIff(t: string, s: string)
    ensures Occurs(t, s) <==> exists i :: OccursAt(t, s, i)
    decreases |s|
  {
    if |t| > |s| {
      forall i ensures !OccursAt(t, s, i) { }
    } else if s[..|t|] == t {
      assert OccursAt(t, s, 0);
    } else {
      OccursIff(t, s[1..]);
      if Occurs(t, s[1..]) {
        var i :| OccursAt(t, s[1..], i);
        assert s[1..][i..i + |t|] == s[i + 1..i + 1 + |t|];
        assert OccursAt(t, s, i + 1);
      } else {
        forall i | OccursAt(t, s, i) ensures false {
          if i != 0 {
            assert s[1..][i - 1..i - 1 + |t|] == s[i..i + |t|];
            assert OccursAt(t, s[1..], i - 1);
          }
        }
      }
    }
  }

  /** The empty string occurs in every string, as `strstr(s, "")` returns `s`. */
  lemma EmptyOccurs(s: string)
    ensures Occurs([], s)
  {
  }

  /** No character of `w` is a delimiter. */
  predicate NoDelim(w: string, delim: char -> bool)
  {
    forall i :: 0 <= i < |w| ==> !delim(w[i])
  }

  /** The longest prefix of `s` holding no delimiter. */
  function TakeField(s: string, delim: char -> bool): (w: string)
    ensures |w| <= |s| && w == s[..|w|]
    ensures NoDelim(w, delim)
    ensures |w| < |s| ==> delim(s[|w|])
    ensures s != [] && !delim(s[0]) ==> w != []
    decreases |s|
  {
    if s == [] || delim(s[0]) then [] else [s[0]] + TakeField(s[1..], delim)
  }

  /** The maximal runs of non-delimiter characters of `s`, left to right. */
  function Fields(s: string, delim: char -> bool): (fs: seq<string>)
    ensures forall f :: f in fs ==> f != [] && NoDelim(f, delim)
    decreases |s|
  {
    if s == [] then []
    else if delim(s[0]) then Fields(s[1..], delim)
    else
      var w := TakeField(s, delim);
      [w] + Fields(s[|w|..], delim)
  }

  /** A string splits into no fields exactly when it is made of delimiters only. */
  lemma {:induction false} FieldsEmptyIff(s: string, delim: char -> bool)
    ensures Fields(s, delim) == [] <==> forall i :: 0 <= i < |s| ==> delim(s[i])
    decreases |s|
  {
    if s != [] && delim(s[0]) {
      FieldsEmptyIff(s[1..], delim);
      assert forall i :: 1 <= i < |s| ==> s[i] == s[1..][i - 1];
    }
  }

  /** The characters of `s` that are not delimiters, in order. */
  function NonDelims(s: string, delim: char -> bool): (r: string)
    ensures |r| <= |s|
  {
    if s == [] then [] else (if delim(s[0]) then [] else [s[0]]) + NonDelims(s[1..], delim)
  }

  /** Concatenation of a sequence of strings. */
  function Concat(ss: seq<string>): string
  {
    if ss == [] then [] else ss[0] + Concat(ss[1..])
  }

  lemma {:induction false} NonDelimsAppend(a: string, b: string, delim: char -> bool)
    ensures NonDelims(a + b, delim) == NonDelims(a, delim) + NonDelims(b, delim)
    decreases |a|
  {
    if a == [] {
      assert a + b == b;
    } else {
      assert (a + b)[0] == a[0];
      assert (a + b)[1..] == a[1..] + b;
      NonDelimsAppend(a[1..], b, delim);
    }
  }

  lemma {:induction false} NonDelimsNone(s: string, delim: char -> bool)
    requires NoDelim(s, delim)
    ensures NonDelims(s, delim) == s
    decreases |s|
  {
    if s != [] { NonDelimsNone(s[1..], delim); }
  }

  lemma TakeFieldKeepsNonDelims(t: string, delim: char -> bool)
    ensures NonDelims(t, delim) == TakeField(t, delim) + NonDelims(t[|TakeField(t, delim)|..], delim)
  {
    var w := TakeField(t, delim);
    assert t == w + t[|w|..];
    NonDelimsAppend(w, t[|w|..], delim);
    NonDelimsNone(w, delim);
  }

  lemma ConcatCons(w: string, fs: seq<string>)
    ensures Concat([w] + fs) == w + Concat(fs)
  {
    assert ([w] + fs)[1..] == fs;
  }

  /** Splitting loses nothing but delimiters: the fields, joined, are the
      non-delimiter characters of `s` in their original order. */
  lemma {:induction false} FieldsJoin(s: string, delim: char -> bool)
    ensures Concat(Fields(s, delim)) == NonDelims(s, delim)
    decreases |s|
  {
    if s != [] {
      if delim(s[0]) {
        FieldsJoin(s[1..], delim);
      } else {
        var w := TakeField(s, delim);
        TakeFieldKeepsNonDelims(s, delim);
        ConcatCons(w, Fields(s[|w|..], delim));
        FieldsJoin(s[|w|..], delim);
      }
    }
  }

  /** A non-empty string without delimiters is a single field. */
  lemma SingleField(s: string, delim: char -> bool)
    requires s != [] && NoDelim(s, delim)
    ensures Fields(s, delim) == [s]
  {
    assert TakeField(s, delim) == s;
    assert s[|s|..] == [];
  }

  /** A field ends where its text ends in a delimiter or runs out: what
      follows cannot lengthen it when it starts with a delimiter. */
  lemma {:induction false} TakeFieldAppend(x: string, y: string, delim: char -> bool)
    requires |TakeField(x, delim)| < |x| || (y != [] && delim(y[0]))
    ensures TakeField(x + y, delim) == TakeField(x, delim)
    decreases |x|
  {
    if x == [] {
      assert x + y == y;
    } else {
      assert (x + y)[0] == x[0];
      if !delim(x[0]) {
        assert (x + y)[1..] == x[1..] + y;
        TakeFieldAppend(x[1..], y, delim);
      }
    }
  }

  /** Fields are maximal: cutting a string at one of its delimiters splits its
      fields at that point and nowhere else. With `Fields([]) == []` and
      `SingleField`, this determines `Fields` on every string. */
  lemma {:induction false} FieldsSplitAtDelimiter(a: string, d: char, b: string, delim: char -> bool)
    requires delim(d)
    ensures Fields(a + [d] + b, delim) == Fields(a, delim) + Fields(b, delim)
    decreases |a|
  {
    var s := a + [d] + b;
    if a == [] {
      assert s[1..] == b;
    } else if delim(a[0]) {
      assert s[0] == a[0] && s[1..] == a[1..] + [d] + b;
      FieldsSplitAtDelimiter(a[1..], d, b, delim);
    } else {
      var w := TakeField(a, delim);
      assert s == a + ([d] + b);
      TakeFieldAppend(a, [d] + b, delim);
      assert s[0] == a[0];
      assert s[|w|..] == a[|w|..] + [d] + b;
      FieldsSplitAtDelimiter(a[|w|..], d, b, delim);
      AppendAssoc([w], Fields(a[|w|..], delim), Fields(b, delim));
    }
  }

  /** Dropping a prefix of the first part of a concatenation. */
  lemma DropAppend<T>(x: seq<T>, y: seq<T>, n: nat)
    requires n <= |x|
    ensures (x + y)[n..] == x[n..] + y
  {
  }

  /** Concatenation regroups freely. */
  lemma AppendAssoc<T>(a: seq<T>, b: seq<T>, c: seq<T>)
    ensures a + (b + c) == (a + b) + c
  {
  }
}
