/**
 * The two string operations the data table relies on:
 * `String.prototype.includes` (a case-sensitive substring test) and
 * `Array.prototype.join` on a list of strings.
 */
module TextOps {

  /** `prefix` is an initial segment of `s`. */
  predicate IsPrefix(prefix: string, s: string) {
    |prefix| <= |s| && s[..|prefix|] == prefix
  }

  /**
   * `s.includes(needle)`: some position of `s` starts a copy of `needle`.
   * Characters are compared exactly, so the test is case-sensitive, and the
   * empty needle occurs everywhere.
   */
  function Includes(s: string, needle: string): (found: bool)
    ensures needle == [] ==> found
    ensures found ==> |needle| <= |s|
    decreases |s|
  {
    IsPrefix(needle, s) || (|s| > 0 && Includes(s[1..], needle))
  }

  /** Reference definition of an occurrence: `needle` sits in `s` at index `i`. */
  ghost predicate OccursAt(s: string, needle: string, i: int) {
    0 <= i && i + |needle| <= |s| && s[i..i + |needle|] == needle
  }

  /** The recursive search agrees with the index-based definition, in both directions. */
  lemma {:induction false} IncludesIffOccurs(s: string, needle: string)
    ensures Includes(s, needle) <==> exists i :: OccursAt(s, needle, i)
    decreases |s|
  {
    if IsPrefix(needle, s) {
      assert OccursAt(s, needle, 0);
    } else if |s| == 0 {
      assert needle != [];
      forall i | OccursAt(s, needle, i) ensures false { }
    } else {
      IncludesIffOccurs(s[1..], needle);
      if Includes(s[1..], needle) {
        var i :| OccursAt(s[1..], needle, i);
        TailSlice(s, i, i + |needle|);
        assert OccursAt(s, needle, i + 1);
      } else {
        forall i | OccursAt(s, needle, i) ensures OccursAt(s[1..], needle, i - 1)
        {
          if i > 0 {
            TailSlice(s, i - 1, i - 1 + |needle|);
          }
        }
      }
    }
  }

  /** A window of the tail of `s` is the same window of `s`, one position further on. */
  lemma TailSlice(s: string, lo: int, hi: int)
    requires 0 <= lo <= hi <= |s| - 1
    ensures s[1..][lo..hi] == s[lo + 1..hi + 1]
  {
    forall j | 0 <= j < hi - lo ensures s[1..][lo..hi][j] == s[lo + 1..hi + 1][j] { }
  }

  /** An occurrence inside `b` is still an occurrence once text is put around `b`. */
  lemma IncludesInContext(a: string, b: string, c: string, needle: string)
    requires Includes(b, needle)
    ensures Includes(a + b + c, needle)
  {
    IncludesIffOccurs(b, needle);
    var i :| OccursAt(b, needle, i);
    var t := a + b + c;
    assert t[|a| + i..|a| + i + |needle|] == b[i..i + |needle|];
    assert OccursAt(t, needle, |a| + i);
    IncludesIffOccurs(t, needle);
  }

  /** `parts.join(sep)`: the parts in order, with `sep` between neighbours. */
  function Join(parts: seq<string>, sep: string): (joined: string)
    ensures parts == [] ==> joined == ""
  {
    if |parts| == 0 then ""
    else if |parts| == 1 then parts[0]
    else parts[0] + sep + Join(parts[1..], sep)
  }

  /** Total number of characters in `parts`. */
  function TotalLength(parts: seq<string>): nat {
    if parts == [] then 0 else |parts[0]| + TotalLength(parts[1..])
  }

  /** Joining one more part appends the separator and that part (a left-to-right reading of join). */
  lemma {:induction false} JoinSnoc(parts: seq<string>, last: string, sep: string)
    requires parts != []
    ensures Join(parts + [last], sep) == Join(parts, sep) + sep + last
    decreases |parts|
  {
    if |parts| == 1 {
      assert parts + [last] == [parts[0], last];
      assert [parts[0], last][1..] == [last];
    } else {
      assert (parts + [last])[1..] == parts[1..] + [last];
      JoinSnoc(parts[1..], last, sep);
    }
  }

  /** The joined string holds every character of every part and one separator per gap. */
  lemma {:induction false} JoinLength(parts: seq<string>, sep: string)
    ensures |Join(parts, sep)| == TotalLength(parts) + (if parts == [] then 0 else (|parts| - 1) * |sep|)
    decreases |parts|
  {
    if |parts| > 1 {
      JoinLength(parts[1..], sep);
      assert |parts[1..]| - 1 == |parts| - 2;
      assert (|parts| - 1) * |sep| == |sep| + (|parts| - 2) * |sep|;
    } else if |parts| == 1 {
      assert parts[1..] == [];
    }
  }

  /** Every part can be found in the joined string. */
  lemma {:induction false} JoinIncludesEachPart(parts: seq<string>, sep: string, p: string)
    requires p in parts
    ensures Includes(Join(parts, sep), p)
    decreases |parts|
  {
    IncludesIffOccurs(p, p);
    assert OccursAt(p, p, 0);
    if |parts| == 1 {
      assert p == parts[0];
    } else if p == parts[0] {
      IncludesInContext("", p, sep + Join(parts[1..], sep), p);
      assert "" + p + (sep + Join(parts[1..], sep)) == Join(parts, sep);
    } else {
      assert p in parts[1..];
      JoinIncludesEachPart(parts[1..], sep, p);
      IncludesInContext(parts[0] + sep, Join(parts[1..], sep), "", p);
      assert parts[0] + sep + Join(parts[1..], sep) + "" == Join(parts, sep);
    }
  }

  /** Every part can be found in the joined string (all parts at once). */
  lemma JoinIncludesAll(parts: seq<string>, sep: string)
    ensures forall p :: p in parts ==> Includes(Join(parts, sep), p)
  {
    forall p | p in parts ensures Includes(Join(parts, sep), p) {
      JoinIncludesEachPart(parts, sep, p);
    }
  }
}
