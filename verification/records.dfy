/** Values held by the record store: JSON field values, records, clock readings,
    and the string operations (`toLowerCase`, `includes`) the store's filter uses. */
module Records {

  /** A field value of a stored record: a JSON string or JSON null. */
  datatype Value = Null | Str(s: string)

  /** A stored record: field name to value (a JavaScript object). */
  type Record = map<string, Value>

  datatype Option<T> = None | Some(value: T)

  /** A clock reading, kept opaque; no clock ever yields the empty string. */
  type Timestamp = s: string | s != "" witness "0"

  /** JavaScript truthiness of a field: null, a missing field and "" are falsy. */
  predicate Truthy(v: Value) {
    v.Str? && v.s != ""
  }

  /** `r[key]`, reading a missing field as null (both are falsy). */
  function Field(r: Record, key: string): Value {
    if key in r then r[key] else Null
  }

  /** The record's `id` field is the string `id` (`item.id === id`). */
  predicate HasId(r: Record, id: string) {
    "id" in r && r["id"] == Str(id)
  }

  /** One character in lower case: an ASCII capital becomes its small letter,
      every other character is kept. */
  function LowerChar(c: char): char {
    if 'A' <= c <= 'Z' then (c as int + 32) as char else c
  }

  /** `toLowerCase`, on the ASCII letters: the same length, no capital left,
      and every other character where it was. */
  function Lower(s: string): (r: string)
    ensures |r| == |s|
    ensures forall i :: 0 <= i < |r| ==> !('A' <= r[i] <= 'Z')
    ensures forall i :: 0 <= i < |s| && !('A' <= s[i] <= 'Z') ==> r[i] == s[i]
    ensures forall i :: 0 <= i < |s| && 'A' <= s[i] <= 'Z' ==> r[i] as int == s[i] as int + 32
  {
    seq(|s|, i requires 0 <= i < |s| => LowerChar(s[i]))
  }

  /** `n` occurs in `h` starting at index `i`. */
  ghost predicate OccursAt(h: string, n: string, i: int) {
    0 <= i && i + |n| <= |h| && h[i..i + |n|] == n
  }

  lemma OccursShift(h: string, n: string, i: int)
    requires |h| > 0 && i >= 1
    ensures OccursAt(h, n, i) <==> OccursAt(h[1..], n, i - 1)
  {
    if i + |n| <= |h| {
      assert h[1..][i - 1..i - 1 + |n|] == h[i..i + |n|];
    }
  }

  /** `h.includes(n)`: true exactly when `n` occurs somewhere in `h`. */
  function Includes(h: string, n: string): (r: bool)
    ensures r <==> exists i :: OccursAt(h, n, i)
    decreases |h|
  {
    if |n| > |h| then
      false
    else if h[..|n|] == n then
      assert OccursAt(h, n, 0);
      true
    else
      var r := Includes(h[1..], n);
      assert r ==> exists i :: OccursAt(h, n, i) by {
        if r {
          var j :| OccursAt(h[1..], n, j);
          OccursShift(h, n, j + 1);
        }
      }
      assert (exists i :: OccursAt(h, n, i)) ==> r by {
        if exists i :: OccursAt(h, n, i) {
          var i :| OccursAt(h, n, i);
          assert i != 0;
          OccursShift(h, n, i);
        }
      }
      r
  }

  /** `n` occurs in `h` when the case of both is ignored
      (`h.toLowerCase().includes(n.toLowerCase())`). */
  predicate ContainsIgnoringCase(h: string, n: string) {
    Includes(Lower(h), Lower(n))
  }

  /** Every string contains the empty string, whatever its case. */
  lemma EmptyTermMatches(h: string)
    ensures ContainsIgnoringCase(h, "")
  {
    assert OccursAt(Lower(h), Lower(""), 0);
  }

  /** `n` occurs in `h` at index `i` once both are put in lower case. */
  ghost predicate FoldedAt(h: string, n: string, i: int) {
    0 <= i && i + |n| <= |h| && forall k :: 0 <= k < |n| ==> LowerChar(h[i + k]) == LowerChar(n[k])
  }

  /** Case-insensitive containment ignores the case of both sides: an upper-case
      letter in the haystack matches its lower-case form in the term. */
  lemma {:induction false} FoldedOccurrence(h: string, n: string, i: int)
    requires FoldedAt(h, n, i)
    ensures ContainsIgnoringCase(h, n)
  {
    assert Lower(h)[i..i + |n|] == Lower(n);
    assert OccursAt(Lower(h), Lower(n), i);
  }

  /** Conversely, a case-insensitive match is an occurrence up to letter case,
      so a term that occurs nowhere up to case does not match. */
  lemma MatchIsFolded(h: string, n: string)
    requires ContainsIgnoringCase(h, n)
    ensures exists i :: FoldedAt(h, n, i)
  {
    var i :| OccursAt(Lower(h), Lower(n), i);
    forall k | 0 <= k < |n|
      ensures LowerChar(h[i + k]) == LowerChar(n[k])
    {
      assert Lower(h)[i..i + |n|][k] == Lower(h)[i + k];
    }
    assert FoldedAt(h, n, i);
  }
}
