/**
 * Ruby's `String#split` with a one-character string pattern and no limit,
 * and `Array#last`, as used to pull the build number out of a version string.
 *
 * `s.split(sep)` cuts `s` at every occurrence of `sep`, keeps leading empty
 * fields and drops trailing empty ones; so `"".split("+")` and
 * `"+++".split("+")` are both `[]`. `xs.last` is `nil` on an empty array.
 */
module RubyString {

  datatype Option<T> = None | Some(value: T)

  /** No character of `s` is `sep`. */
  predicate NoSep(s: string, sep: char) {
    forall k :: 0 <= k < |s| ==> s[k] != sep
  }

  /** Every character of `s` is `sep` (true of the empty string). */
  predicate AllSep(s: string, sep: char) {
    forall k :: 0 <= k < |s| ==> s[k] == sep
  }

  /** Every field between separators, empty ones included: what Ruby's
      `s.split(sep, -1)` gives. There is always at least one field. */
  function Fields(s: string, sep: char): (r: seq<string>)
    ensures |r| >= 1
  {
    if s == [] then [[]]
    else
      var rest := Fields(s[1..], sep);
      if s[0] == sep then [[]] + rest
      else [[s[0]] + rest[0]] + rest[1..]
  }

  /** The string that `fields.join(sep)` builds. */
  function Join(fields: seq<string>, sep: char): (r: string)
  {
    if |fields| == 0 then []
    else if |fields| == 1 then fields[0]
    else fields[0] + [sep] + Join(fields[1..], sep)
  }

  /** `xs` with its trailing empty strings removed: the longest prefix of `xs`
      that is empty or ends in a non-empty string, everything after it empty. */
  function DropTrailingEmpty(xs: seq<string>): (r: seq<string>)
    ensures |r| <= |xs| && r == xs[..|r|]
    ensures r == [] || r[|r| - 1] != []
    ensures forall k :: |r| <= k < |xs| ==> xs[k] == []
  {
    if xs == [] then []
    else if xs[|xs| - 1] == [] then DropTrailingEmpty(xs[..|xs| - 1])
    else xs
  }

  /** Ruby's `s.split(sep)` for a one-character string `sep` and no limit:
      no field holds the separator and the last field, if any, is non-empty.
      LastFieldAt, LastFieldNone and LastFieldSome pin down its last field. */
  function Split(s: string, sep: char): (r: seq<string>)
    ensures forall k :: 0 <= k < |r| ==> NoSep(r[k], sep)
    ensures r == [] || r[|r| - 1] != []
  {
    var fields := Fields(s, sep);
    FieldsHaveNoSep(s, sep);
    var r := DropTrailingEmpty(fields);
    assert forall k :: 0 <= k < |r| ==> r[k] == fields[k] && fields[k] in fields;
    r
  }

  /** Ruby's `xs.last`: the final element, or `nil` when `xs` is empty. */
  function Last(xs: seq<string>): (r: Option<string>)
  {
    if xs == [] then None else Some(xs[|xs| - 1])
  }

  /** `last` is `nil` on the empty array and gives back what was appended last. */
  lemma LastOfAppend(ys: seq<string>, x: string)
    ensures Last([]) == None
    ensures Last(ys + [x]) == Some(x)
  {
  }

  /** `s[i..j]` is the last non-empty field of `s`: it starts the string or
      follows a separator, holds no separator, and only separators follow it. */
  ghost predicate IsLastField(s: string, sep: char, i: int, j: int) {
    0 <= i < j <= |s| &&
    (i == 0 || s[i - 1] == sep) &&
    NoSep(s[i..j], sep) &&
    AllSep(s[j..], sep)
  }

  // ---------------------------------------------------------------------
  // Fields and Join are inverse to each other.

  /** Every field is free of the separator. */
  lemma {:induction false} FieldsHaveNoSep(s: string, sep: char)
    ensures forall f :: f in Fields(s, sep) ==> NoSep(f, sep)
  {
    if s != [] {
      FieldsHaveNoSep(s[1..], sep);
      var rest := Fields(s[1..], sep);
      if s[0] != sep {
        assert NoSep(rest[0], sep);
        var head := [s[0]] + rest[0];
        assert NoSep(head, sep) by {
          forall k | 0 <= k < |head| ensures head[k] != sep {
            if k > 0 { assert head[k] == rest[0][k - 1]; }
          }
        }
        forall f | f in Fields(s, sep) ensures NoSep(f, sep) {
          if f != head { assert f in rest[1..]; }
        }
      }
    }
  }

  /** Joining the fields with the separator gives back the string. */
  lemma {:induction false} JoinFields(s: string, sep: char)
    ensures Join(Fields(s, sep), sep) == s
  {
    if s != [] {
      JoinFields(s[1..], sep);
      var rest := Fields(s[1..], sep);
      if s[0] == sep {
        assert Fields(s, sep) == [[]] + rest;
        assert ([[]] + rest)[1..] == rest;
      } else {
        JoinHead(s[0], rest, sep);
      }
    }
  }

  /** Putting a character in front of the first field puts it in front of the join. */
  lemma JoinHead(c: char, fields: seq<string>, sep: char)
    requires |fields| >= 1
    ensures Join([[c] + fields[0]] + fields[1..], sep) == [c] + Join(fields, sep)
  {
  }

  /** Splitting a join of separator-free fields gives the fields back. */
  lemma {:induction false} FieldsJoin(fields: seq<string>, sep: char)
    requires |fields| >= 1
    requires forall k :: 0 <= k < |fields| ==> NoSep(fields[k], sep)
    ensures Fields(Join(fields, sep), sep) == fields
  {
    if |fields| == 1 {
      FieldsOfNoSep(fields[0], sep);
    } else {
      FieldsJoin(fields[1..], sep);
      FieldsOfNoSep(fields[0], sep);
      FieldsConcat(fields[0], Join(fields[1..], sep), sep);
      assert [fields[0]] + fields[1..] == fields;
    }
  }

  /** A string without the separator is a single field. */
  lemma {:induction false} FieldsOfNoSep(b: string, sep: char)
    requires NoSep(b, sep)
    ensures Fields(b, sep) == [b]
  {
    if b != [] {
      assert NoSep(b[1..], sep) by {
        forall k | 0 <= k < |b[1..]| ensures b[1..][k] != sep { assert b[1..][k] == b[k + 1]; }
      }
      FieldsOfNoSep(b[1..], sep);
      assert [b[0]] + b[1..] == b;
    }
  }

  /** Fields of a string given by its first character and the rest. */
  lemma FieldsCons(c: char, t: string, sep: char)
    ensures Fields([c] + t, sep) ==
      if c == sep then [[]] + Fields(t, sep)
      else [[c] + Fields(t, sep)[0]] + Fields(t, sep)[1..]
  {
  }

  /** Cutting at one separator splits the field list in two. */
  lemma {:induction false} FieldsConcat(x: string, y: string, sep: char)
    ensures Fields(x + [sep] + y, sep) == Fields(x, sep) + Fields(y, sep)
  {
    if x == [] {
      assert x + [sep] + y == [sep] + y;
      FieldsCons(sep, y, sep);
    } else {
      var c, x' := x[0], x[1..];
      var t := x' + [sep] + y;
      assert x == [c] + x' && x + [sep] + y == [c] + t;
      FieldsConcat(x', y, sep);
      var fx, fy := Fields(x', sep), Fields(y, sep);
      FieldsConsConcat(c, fx, fy, sep);
      FieldsCons(c, t, sep);
      FieldsCons(c, x', sep);
    }
  }

  /** The list step of FieldsConcat: prepending a character commutes with
      appending more fields. */
  lemma FieldsConsConcat(c: char, fx: seq<string>, fy: seq<string>, sep: char)
    requires |fx| >= 1
    ensures (if c == sep then [[]] + (fx + fy) else [[c] + (fx + fy)[0]] + (fx + fy)[1..])
         == (if c == sep then [[]] + fx else [[c] + fx[0]] + fx[1..]) + fy
  {
  }

  /** A run of `n` separators has `n + 1` fields, all empty. */
  lemma {:induction false} FieldsOfAllSep(q: string, sep: char)
    requires AllSep(q, sep)
    ensures |Fields(q, sep)| == |q| + 1
    ensures forall k :: 0 <= k < |Fields(q, sep)| ==> Fields(q, sep)[k] == []
  {
    if q != [] {
      assert AllSep(q[1..], sep) by {
        forall k | 0 <= k < |q[1..]| ensures q[1..][k] == sep { assert q[1..][k] == q[k + 1]; }
      }
      FieldsOfAllSep(q[1..], sep);
    }
  }

  // ---------------------------------------------------------------------
  // DropTrailingEmpty is determined by its contract.

  /** Any split of `xs` into a part that is empty or ends non-empty, followed
      by empty strings only, is exactly what DropTrailingEmpty keeps. */
  lemma {:induction false} DropTrailingEmptyUnique(ys: seq<string>, zs: seq<string>)
    requires ys == [] || ys[|ys| - 1] != []
    requires forall k :: 0 <= k < |zs| ==> zs[k] == []
    ensures DropTrailingEmpty(ys + zs) == ys
  {
    if zs == [] {
      assert ys + zs == ys;
    } else {
      var xs, zs' := ys + zs, zs[..|zs| - 1];
      assert xs[|xs| - 1] == zs[|zs| - 1] == [];
      assert xs[..|xs| - 1] == ys + zs';
      DropTrailingEmptyUnique(ys, zs');
    }
  }

  // ---------------------------------------------------------------------
  // The last field of Ruby's split, characterised on the string itself.

  /** When `s[i..j]` is the last non-empty field, `s.split(sep).last` is it. */
  lemma LastFieldAt(s: string, sep: char, i: int, j: int)
    requires IsLastField(s, sep, i, j)
    ensures Split(s, sep) != []
    ensures Last(Split(s, sep)) == Some(s[i..j])
  {
    var b := s[i..j];
    var tail := FieldsOfFieldThenSeps(b, s[j..], sep);
    var front: seq<string>;
    if i == 0 {
      assert s == b + s[j..];
      front := [];
    } else {
      var p := s[..i - 1];
      assert s == p + [sep] + (b + s[j..]);
      FieldsConcat(p, b + s[j..], sep);
      front := Fields(p, sep);
    }
    assert Fields(s, sep) == (front + [b]) + tail;
    DropTrailingEmptyUnique(front + [b], tail);
  }

  /** A separator-free string followed by separators only: its own field,
      then nothing but empty fields. */
  lemma FieldsOfFieldThenSeps(b: string, q: string, sep: char) returns (tail: seq<string>)
    requires NoSep(b, sep) && AllSep(q, sep)
    ensures Fields(b + q, sep) == [b] + tail
    ensures forall k :: 0 <= k < |tail| ==> tail[k] == []
  {
    FieldsOfNoSep(b, sep);
    if q == [] {
      assert b + q == b;
      tail := [];
    } else {
      var q' := q[1..];
      assert AllSep(q', sep) by {
        forall k | 0 <= k < |q'| ensures q'[k] == sep { assert q'[k] == q[k + 1]; }
      }
      assert b + q == b + [sep] + q' by { assert q == [sep] + q'; }
      FieldsConcat(b, q', sep);
      FieldsOfAllSep(q', sep);
      tail := Fields(q', sep);
    }
  }

  /** `s.split(sep)` is empty, so `.last` is `nil`, exactly when `s` holds
      nothing but separators (the empty string included). */
  lemma LastFieldNone(s: string, sep: char)
    ensures Last(Split(s, sep)) == None <==> AllSep(s, sep)
  {
    if AllSep(s, sep) {
      FieldsOfAllSep(s, sep);
      assert Fields(s, sep) == [] + Fields(s, sep);
      DropTrailingEmptyUnique([], Fields(s, sep));
    } else {
      var i, j := LastFieldExists(s, sep);
      LastFieldAt(s, sep, i, j);
    }
  }

  /** When `s.split(sep).last` is a string, it is the last non-empty field of
      `s`, located at `s[i..j]`. */
  lemma LastFieldSome(s: string, sep: char) returns (i: int, j: int)
    requires Last(Split(s, sep)).Some?
    ensures IsLastField(s, sep, i, j)
    ensures Last(Split(s, sep)) == Some(s[i..j])
  {
    LastFieldNone(s, sep);
    i, j := LastFieldExists(s, sep);
    LastFieldAt(s, sep, i, j);
  }

  /** A string with a character other than the separator has a last non-empty field. */
  lemma {:induction false} LastFieldExists(s: string, sep: char) returns (i: int, j: int)
    requires !AllSep(s, sep)
    ensures IsLastField(s, sep, i, j)
  {
    var n := |s|;
    if s[n - 1] == sep {
      var p := s[..n - 1];
      assert !AllSep(p, sep) by {
        var k :| 0 <= k < n && s[k] != sep;
        assert p[k] == s[k];
      }
      i, j := LastFieldExists(p, sep);
      assert s[i..j] == p[i..j];
      assert s[j..] == p[j..] + [sep];
    } else {
      assert NoSep(s[n - 1..n], sep);
      i := RunStart(s, sep, n - 1, n);
      j := n;
      assert s[j..] == [];
    }
  }

  /** Walks left from `s[k..j]`, a separator-free stretch, to the start of its field. */
  lemma {:induction false} RunStart(s: string, sep: char, k: int, j: int) returns (i: int)
    requires 0 <= k < j <= |s|
    requires NoSep(s[k..j], sep)
    ensures 0 <= i <= k
    ensures i == 0 || s[i - 1] == sep
    ensures NoSep(s[i..j], sep)
    decreases k
  {
    if k == 0 || s[k - 1] == sep {
      i := k;
    } else {
      var t := s[k - 1..j];
      assert NoSep(t, sep) by {
        forall m | 0 <= m < |t| ensures t[m] != sep {
          if m > 0 { assert t[m] == s[k..j][m - 1]; }
        }
      }
      i := RunStart(s, sep, k - 1, j);
    }
  }
}
