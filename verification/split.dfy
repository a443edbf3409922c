/** Splitting an ISO 8601 string into its date and time parts at the first `T`. */
module Split {
  import opened Wrappers

  /** The position of the first `c` in `s`, or `|s|` when `c` does not occur. */
  function IndexOf(s: string, c: char): (i: nat)
    ensures i <= |s|
    ensures i < |s| ==> s[i] == c
    ensures c !in s[..i]
  {
    if |s| == 0 || s[0] == c then 0
    else
      var j := IndexOf(s[1..], c);
      assert s[..j + 1] == [s[0]] + s[1..][..j];
      j + 1
  }

  /** `split_iso_8601`: the pattern `^([^T]*)T?(.*)$` where `[^T]` matches any
      character but `T` (newlines included) and `.` any character but a newline.
      The date part runs up to the first `T`; the time part is the rest after it.
      Without a `T` the whole input is the date part. With a `T`, a newline after
      it leaves `.*` unable to reach the end, and nothing matches. */
  function SplitIso8601(s: string): (r: Option<(string, string)>)
    ensures 'T' !in s ==> r == Some((s, ""))
    ensures r.Some? ==> 'T' !in r.value.0
    ensures r.Some? && 'T' in s ==> r.value.0 + "T" + r.value.1 == s && '\n' !in r.value.1
    ensures r.None? <==> 'T' in s && '\n' in s[IndexOf(s, 'T') + 1..]
  {
    var p := IndexOf(s, 'T');
    if p == |s| then
      assert s[..p] == s;
      Some((s, ""))
    else if '\n' in s[p + 1..] then None
    else
      assert s == s[..p] + "T" + s[p + 1..];
      Some((s[..p], s[p + 1..]))
  }

  /** Joining a `T`-free date part and a newline-free time part with `T`, then
      splitting, gives both parts back. */
  lemma SplitJoin(date: string, time: string)
    requires 'T' !in date && '\n' !in time
    ensures SplitIso8601(date + "T" + time) == Some((date, time))
  {
    var s := date + "T" + time;
    assert s[|date|] == 'T';
    assert s[..|date|] == date;
    assert 'T' in s;
    var p := IndexOf(s, 'T');
    assert p == |date|;
    assert s[p + 1..] == time;
  }

  /** A newline after the first `T` makes the split fail (and its callers'
      `unwrap` panic). */
  lemma SplitNewlineFails(date: string, time: string)
    requires 'T' !in date && '\n' in time
    ensures SplitIso8601(date + "T" + time).None?
  {
    var s := date + "T" + time;
    assert s[|date|] == 'T';
    assert s[..|date|] == date;
    var p := IndexOf(s, 'T');
    assert p == |date|;
    assert s[p + 1..] == time;
  }
}
