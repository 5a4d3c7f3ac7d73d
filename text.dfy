/** The few JavaScript string operations the page script relies on. */
module Text {
  import opened Wrappers

  /** `p` occurs in `s` starting at index `i`. */
  ghost predicate OccursAt(s: string, p: string, i: int) {
    0 <= i && i + |p| <= |s| && s[i..i + |p|] == p
  }

  /**
   * `s.includes(p)`: raw substring containment, with no notion of tokens. Only
   * a text no longer than `s` can be included; the empty text and `s` itself
   * always are.
   */
  function Includes(s: string, p: string): (r: bool)
    ensures r ==> |p| <= |s|
    ensures p == "" ==> r
    ensures p == s ==> r
    decreases |s|
  {
    if |p| > |s| then false
    else if s[..|p|] == p then true
    else Includes(s[1..], p)
  }

  /** `Includes` holds exactly when `p` occurs somewhere in `s`. */
  lemma {:induction false} IncludesIffOccurs(s: string, p: string)
    ensures Includes(s, p) <==> exists i :: OccursAt(s, p, i)
    decreases |s|
  {
    if |p| > |s| {
    } else if s[..|p|] == p {
      assert OccursAt(s, p, 0);
    } else {
      IncludesIffOccurs(s[1..], p);
      if exists i :: OccursAt(s[1..], p, i) {
        var i :| OccursAt(s[1..], p, i);
        assert s[1..][i..i + |p|] == s[i + 1..i + 1 + |p|];
        assert OccursAt(s, p, i + 1);
      }
      if exists i :: OccursAt(s, p, i) {
        var i :| OccursAt(s, p, i);
        assert i != 0;
        assert s[1..][i - 1..i - 1 + |p|] == s[i..i + |p|];
        assert OccursAt(s[1..], p, i - 1);
      }
    }
  }

  /**
   * `parts.join(sep)`: the parts with `sep` between neighbours; `[]` gives `""`.
   * The joined text starts with the first part and ends with the last one.
   */
  function Join(parts: seq<string>, sep: string): (r: string)
    ensures |parts| == 0 ==> r == ""
    ensures |parts| > 0 ==> parts[0] <= r
    ensures |parts| > 0 ==> |parts[|parts| - 1]| <= |r| && r[|r| - |parts[|parts| - 1]|..] == parts[|parts| - 1]
  {
    if |parts| == 0 then ""
    else if |parts| == 1 then parts[0]
    else
      var rest := Join(parts[1..], sep);
      var r := parts[0] + sep + rest;
      assert r[|r| - |rest|..] == rest;
      assert parts[1..][|parts[1..]| - 1] == parts[|parts| - 1];
      r
  }

  /** Appending one more part adds the separator and that part at the end. */
  lemma {:induction false} JoinSnoc(parts: seq<string>, last: string, sep: string)
    requires |parts| > 0
    ensures Join(parts + [last], sep) == Join(parts, sep) + sep + last
    decreases |parts|
  {
    if |parts| == 1 {
      assert (parts + [last])[1..] == [last];
    } else {
      assert (parts + [last])[1..] == parts[1..] + [last];
      JoinSnoc(parts[1..], last, sep);
    }
  }

  /** The first index of `c` in `s`; used to split an e-mail address at its first `@`. */
  function IndexOf(s: string, c: char): (r: Option<nat>)
    ensures r.Some? ==> r.value < |s| && s[r.value] == c && c !in s[..r.value]
    ensures r.None? ==> c !in s
  {
    if |s| == 0 then None
    else if s[0] == c then Some(0)
    else
      match IndexOf(s[1..], c)
      case None => None
      case Some(k) =>
        assert s[..k + 1] == [s[0]] + s[1..][..k];
        Some(k + 1)
  }
}
