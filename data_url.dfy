/**
 * The match of `/^data:(.*);base64,(.*)$/` against the data URL a file read
 * produces (the `data:` URL scheme of RFC 2397, section 3). JavaScript's `.`
 * matches anything but a line terminator, and the greedy first group makes the
 * second group the text after the LAST `;base64,`.
 */
module DataUrl {
  import opened Wrappers

  const Scheme: string := "data:"
  const Marker: string := ";base64,"

  /** The characters `.` refuses in a JavaScript regular expression. */
  predicate IsLineTerminator(c: char)
  {
    c == '\n' || c == '\r' || c == '\U{2028}' || c == '\U{2029}'
  }

  predicate NoLineTerminator(s: string)
  {
    forall i :: 0 <= i < |s| ==> !IsLineTerminator(s[i])
  }

  /** `;base64,` occurs in `t` at position `i`. */
  predicate MarkerAt(t: string, i: nat)
  {
    i + |Marker| <= |t| && t[i..i + |Marker|] == Marker
  }

  /** The last occurrence of the marker at or before `hi`. */
  function LastMarker(t: string, hi: nat): (r: Option<nat>)
    ensures r.Some? ==> r.value <= hi && MarkerAt(t, r.value)
    ensures r.Some? ==> forall j :: r.value < j <= hi ==> !MarkerAt(t, j)
    ensures r.None? ==> forall j :: 0 <= j <= hi ==> !MarkerAt(t, j)
    decreases hi
  {
    if MarkerAt(t, hi) then Some(hi)
    else if hi == 0 then None
    else LastMarker(t, hi - 1)
  }

  /** The two groups of the match, or None where `exec` returns null. */
  function Match(s: string): (m: Option<(string, string)>)
    ensures m.Some? ==> s == Scheme + m.value.0 + Marker + m.value.1
    ensures m.Some? ==> NoLineTerminator(m.value.0) && NoLineTerminator(m.value.1)
    ensures m.Some? ==> forall j :: !MarkerAt(m.value.1, j)
  {
    if |s| < |Scheme| || s[..|Scheme|] != Scheme then None
    else
      var t := s[|Scheme|..];
      if !NoLineTerminator(t) then None
      else match LastMarker(t, |t|)
        case None => None
        case Some(i) =>
          var g1, g2 := t[..i], t[i + |Marker|..];
          assert t == g1 + Marker + g2 by { assert t[i..i + |Marker|] == Marker; }
          assert s == Scheme + t;
          NoSplit(t, g1, g2);
          forall j ensures !MarkerAt(g2, j) {
            if MarkerAt(g2, j) { MarkerShift(t, i + |Marker|, j); }
          }
          Some((g1, g2))
  }

  /** Group 2, the payload the file reader hands on to `atob`. */
  function Payload(s: string): (r: Option<string>)
    ensures r.Some? <==> Match(s).Some?
    ensures r.Some? ==> |r.value| <= |s| && s[|s| - |r.value|..] == r.value
    ensures r.Some? ==> |r.value| + |Marker| <= |s| && MarkerAt(s, |s| - |r.value| - |Marker|)
    ensures r.Some? ==> NoLineTerminator(r.value) && forall j :: !MarkerAt(r.value, j)
  {
    match Match(s)
    case None => None
    case Some(groups) => Some(groups.1)
  }

  lemma NoSplit(t: string, a: string, b: string)
    requires t == a + Marker + b && NoLineTerminator(t)
    ensures NoLineTerminator(a) && NoLineTerminator(b)
  {
    forall k | 0 <= k < |a| ensures !IsLineTerminator(a[k]) { assert a[k] == t[k]; }
    forall k | 0 <= k < |b| ensures !IsLineTerminator(b[k]) { assert b[k] == t[|a| + |Marker| + k]; }
  }

  /** A marker in a suffix of `t` is a marker of `t`. */
  lemma MarkerShift(t: string, off: nat, j: nat)
    requires off <= |t| && MarkerAt(t[off..], j)
    ensures MarkerAt(t, off + j)
  {
    assert t[off..][j..j + |Marker|] == t[off + j..off + j + |Marker|];
  }

  /**
   * Every URL of the matched form matches, with a first group at least as
   * long as any other way of cutting it at the marker.
   */
  lemma MatchComplete(g1: string, g2: string)
    requires NoLineTerminator(g1) && NoLineTerminator(g2)
    ensures Match(Scheme + g1 + Marker + g2).Some?
    ensures |Match(Scheme + g1 + Marker + g2).value.0| >= |g1|
  {
    var s := Scheme + g1 + Marker + g2;
    var t := g1 + Marker + g2;
    assert s[..|Scheme|] == Scheme;
    assert s[|Scheme|..] == t;
    assert MarkerAt(t, |g1|) by { assert t[|g1|..|g1| + |Marker|] == Marker; }
    forall k | 0 <= k < |t| ensures !IsLineTerminator(t[k]) {
      if k < |g1| { assert t[k] == g1[k]; }
      else if k >= |g1| + |Marker| { assert t[k] == g2[k - |g1| - |Marker|]; }
    }
  }

  /** When the payload holds no marker, the groups are exactly the parts. */
  lemma MatchExact(g1: string, g2: string)
    requires NoLineTerminator(g1) && NoLineTerminator(g2)
    requires forall j :: !MarkerAt(g2, j)
    ensures Match(Scheme + g1 + Marker + g2) == Some((g1, g2))
  {
    var s := Scheme + g1 + Marker + g2;
    var t := g1 + Marker + g2;
    MatchComplete(g1, g2);
    assert s[|Scheme|..] == t;
    var i := LastMarker(t, |t|).value;
    if i > |g1| {
      MarkerInSuffix(t, g1, g2, i);
    }
    assert t[..|g1|] == g1;
    assert t[|g1| + |Marker|..] == g2;
  }

  /** A marker of `g1 + Marker + g2` past the one at `|g1|` is a marker of `g2`. */
  lemma MarkerInSuffix(t: string, g1: string, g2: string, k: nat)
    requires t == g1 + Marker + g2
    requires MarkerAt(t, k) && k > |g1|
    ensures k >= |g1| + |Marker| && MarkerAt(g2, k - |g1| - |Marker|)
  {
    assert MarkerAt(t, |g1|) by { assert t[|g1|..|g1| + |Marker|] == Marker; }
    MarkersApart(t, |g1|, k);
    var j := k - |g1| - |Marker|;
    assert g2 == t[|g1| + |Marker|..];
    assert g2[j..j + |Marker|] == t[k..k + |Marker|];
  }

  /** Two occurrences of `;base64,` never overlap: its `;` occurs only in front. */
  lemma MarkersApart(t: string, i: nat, k: nat)
    requires MarkerAt(t, i) && MarkerAt(t, k) && i < k
    ensures k >= i + |Marker|
  {
    assert t[k] == t[k..k + |Marker|][0];
  }
}
