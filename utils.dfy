/**
 * Transcript helpers: pulling the video id out of a URL and turning the
 * caption service's snippets into numbered `{id, text, start, end}` entries.
 */
module Utils {
  import opened Outcomes
  import opened Transcript

  // ---------------------------------------------------------------------------
  // Video id extraction: the search `(?:v=|youtu\.be/)([a-zA-Z0-9_-]{11})`
  // ---------------------------------------------------------------------------

  const IdLength: nat := 11
  const WatchMarker: string := "v="
  const ShortMarker: string := "youtu.be/"
  const InvalidUrl: string := "Invalid YouTube URL"

  /** The characters a video id is made of: `a-z`, `A-Z`, `0-9`, `_` and `-`. */
  predicate IsIdChar(ch: char)
  {
    ('a' <= ch <= 'z') || ('A' <= ch <= 'Z') || ('0' <= ch <= '9') || ch == '_' || ch == '-'
  }

  /** `url` holds the text `t` at position `p`. */
  predicate HasAt(url: string, p: nat, t: string)
  {
    p + |t| <= |url| && url[p..p + |t|] == t
  }

  /** `url` holds eleven id characters from position `p` on. */
  predicate IdCharsAt(url: string, p: nat)
  {
    p + IdLength <= |url| && forall q :: p <= q < p + IdLength ==> IsIdChar(url[q])
  }

  /** The pattern matches at position `p`: a marker followed by eleven id characters. */
  predicate MatchAt(url: string, p: nat)
  {
    (HasAt(url, p, WatchMarker) && IdCharsAt(url, p + |WatchMarker|))
    || (HasAt(url, p, ShortMarker) && IdCharsAt(url, p + |ShortMarker|))
  }

  /** The captured group of a match at `p`: the eleven characters after the marker. */
  function IdAt(url: string, p: nat): (id: string)
    requires MatchAt(url, p)
    ensures |id| == IdLength && forall k :: 0 <= k < |id| ==> IsIdChar(id[k])
  {
    var q := if HasAt(url, p, WatchMarker) && IdCharsAt(url, p + |WatchMarker|) then p + |WatchMarker|
             else p + |ShortMarker|;
    var id := url[q..q + IdLength];
    assert forall k :: 0 <= k < |id| ==> id[k] == url[q + k];
    id
  }

  /** The leftmost position at or after `p` where the pattern matches. */
  function FirstMatchFrom(url: string, p: nat): (r: Option<nat>)
    ensures r.Some? ==> p <= r.value < |url| && MatchAt(url, r.value)
    ensures r.Some? ==> forall q :: p <= q < r.value ==> !MatchAt(url, q)
    ensures r.None? ==> forall q :: p <= q ==> !MatchAt(url, q)
    decreases |url| - p
  {
    if p >= |url| then None
    else if MatchAt(url, p) then Some(p)
    else FirstMatchFrom(url, p + 1)
  }

  /**
   * `extract_video_id`: the id captured by the leftmost match, or the error the
   * `extract_video_id` raises when nothing matches.
   */
  function ExtractVideoId(url: string): (r: Result<string>)
    ensures r.Ok? ==> |r.value| == IdLength && forall k :: 0 <= k < |r.value| ==> IsIdChar(r.value[k])
    ensures r.Ok? ==> exists p: nat :: MatchAt(url, p) && r.value == IdAt(url, p)
                        && forall q :: 0 <= q < p ==> !MatchAt(url, q)
    ensures r.Err? <==> forall p: nat :: !MatchAt(url, p)
    ensures r.Err? ==> r.message == InvalidUrl
  {
    match FirstMatchFrom(url, 0)
    case None => Err(InvalidUrl)
    case Some(p) => Ok(IdAt(url, p))
  }

  /** The id follows its marker directly: the URL reads marker + id at the match. */
  lemma IdFollowsMarker(url: string, p: nat)
    requires MatchAt(url, p)
    ensures HasAt(url, p, WatchMarker + IdAt(url, p)) || HasAt(url, p, ShortMarker + IdAt(url, p))
  {
    if HasAt(url, p, WatchMarker) && IdCharsAt(url, p + |WatchMarker|) {
      assert url[p..p + |WatchMarker| + IdLength] == url[p..p + |WatchMarker|] + IdAt(url, p);
    } else {
      assert url[p..p + |ShortMarker| + IdLength] == url[p..p + |ShortMarker|] + IdAt(url, p);
    }
  }

  /** A match in `url` is still a match, with the same id, once text is appended. */
  lemma MatchExtends(url: string, rest: string, p: nat)
    requires MatchAt(url, p)
    ensures MatchAt(url + rest, p) && IdAt(url + rest, p) == IdAt(url, p)
  {
    var s := url + rest;
    if HasAt(url, p, WatchMarker) {
      assert s[p..p + |WatchMarker|] == url[p..p + |WatchMarker|];
    } else {
      assert s[p..p + |ShortMarker|] == url[p..p + |ShortMarker|];
      assert !HasAt(s, p, WatchMarker) by {
        assert s[p] == 'y';
      }
    }
    assert s[..|url|] == url;
  }

  /**
   * A match in `url + rest` that begins before a match lying wholly inside `url`
   * lies wholly inside `url` too: the two markers cannot overlap that way.
   */
  lemma EarlierMatchInside(url: string, rest: string, q: nat, p: nat)
    requires q < p && MatchAt(url, p) && MatchAt(url + rest, q)
    ensures MatchAt(url, q)
  {
    var s := url + rest;
    var pEnd := if HasAt(url, p, WatchMarker) then p + 2 + IdLength else p + 9 + IdLength;
    assert pEnd <= |url|;
    assert url[p] == 'v' || url[p] == 'y' by {
      if HasAt(url, p, WatchMarker) { assert url[p..p + 2][0] == url[p]; }
      else { assert url[p..p + 9][0] == url[p]; }
    }
    if HasAt(s, q, WatchMarker) && IdCharsAt(s, q + 2) {
      assert q + 2 + IdLength <= |url|;
      assert url[q..q + 2] == s[q..q + 2];
      forall x | q + 2 <= x < q + 2 + IdLength ensures IsIdChar(url[x]) {
        assert url[x] == s[x];
      }
    } else {
      assert HasAt(s, q, ShortMarker) && IdCharsAt(s, q + 9);
      assert forall i :: 1 <= i < 9 ==> ShortMarker[i] != 'v' && ShortMarker[i] != 'y';
      assert forall i :: q <= i < q + 9 ==> s[i] == ShortMarker[i - q];
      assert url[p] == s[p];
      if p < q + 9 {
        assert false;
      }
      assert q + 9 + IdLength <= |url|;
      assert url[q..q + 9] == s[q..q + 9];
      forall x | q + 9 <= x < q + 9 + IdLength ensures IsIdChar(url[x]) {
        assert url[x] == s[x];
      }
    }
  }

  /**
   * Only the first eleven id characters are taken and nothing after the match
   * is looked at: appending text to a URL that yields an id yields the same id.
   */
  lemma ExtractIgnoresSuffix(url: string, rest: string)
    requires ExtractVideoId(url).Ok?
    ensures ExtractVideoId(url + rest) == ExtractVideoId(url)
  {
    var p := FirstMatchFrom(url, 0).value;
    MatchExtends(url, rest, p);
    var r := FirstMatchFrom(url + rest, 0);
    assert r.Some? && r.value <= p;
    if r.value < p {
      EarlierMatchInside(url, rest, r.value, p);
      assert false;
    }
  }

  // ---------------------------------------------------------------------------
  // Numbering the transcript
  // ---------------------------------------------------------------------------

  /** One snippet as the caption service returns it. */
  datatype Snippet = Snippet(text: string, start: real, duration: real)

  function DigitChar(d: nat): char
    requires d < 10
  {
    "0123456789"[d]
  }

  function DigitValue(ch: char): nat
  {
    if '0' <= ch <= '9' then (ch as int - '0' as int) else 0
  }

  predicate IsDigit(ch: char) { '0' <= ch <= '9' }

  /** The decimal form of `n`, as Python's `str` writes it: digits without a leading zero. */
  function Decimal(n: nat): (r: string)
    ensures |r| >= 1 && forall k :: 0 <= k < |r| ==> IsDigit(r[k])
    ensures (r[0] == '0') <==> n == 0
    ensures n < 10 <==> |r| == 1
  {
    if n < 10 then [DigitChar(n)] else Decimal(n / 10) + [DigitChar(n % 10)]
  }

  /** Reads a string of decimal digits back as a number. */
  function ParseDecimal(s: string): nat
  {
    if s == [] then 0 else ParseDecimal(s[..|s| - 1]) * 10 + DigitValue(s[|s| - 1])
  }

  /** Reading the decimal form gives the number back. */
  lemma {:induction false} DecimalRoundTrip(n: nat)
    ensures ParseDecimal(Decimal(n)) == n
  {
    var r := Decimal(n);
    if n < 10 {
      assert r[..|r| - 1] == [];
      assert "0123456789"[n] as int - '0' as int == n;
    } else {
      assert r[..|r| - 1] == Decimal(n / 10);
      DecimalRoundTrip(n / 10);
      assert "0123456789"[n % 10] as int - '0' as int == n % 10;
    }
  }

  /** The id of the k-th entry (counting from 1): `c` followed by k in decimal. */
  function EntryId(k: nat): string
  {
    "c" + Decimal(k)
  }

  /** Different positions get different ids. */
  lemma EntryIdsDistinct(j: nat, k: nat)
    requires j != k
    ensures EntryId(j) != EntryId(k)
  {
    DecimalRoundTrip(j);
    DecimalRoundTrip(k);
    assert EntryId(j)[1..] == Decimal(j);
    assert EntryId(k)[1..] == Decimal(k);
  }

  /**
   * `transform_transcript`: numbers the snippets `c1, c2, ...` in order, keeps
   * text and start, and ends each entry at `start + duration`.
   */
  method TransformTranscript(snippets: seq<Snippet>) returns (entries: seq<Entry>)
    ensures |entries| == |snippets|
    ensures forall k :: 0 <= k < |snippets| ==>
      entries[k] == Entry(EntryId(k + 1), snippets[k].text, snippets[k].start, snippets[k].start + snippets[k].duration)
    ensures forall j, k :: 0 <= j < k < |entries| ==> entries[j].id != entries[k].id
  {
    entries := [];
    for i := 0 to |snippets|
      invariant |entries| == i
      invariant forall k :: 0 <= k < i ==>
        entries[k] == Entry(EntryId(k + 1), snippets[k].text, snippets[k].start, snippets[k].start + snippets[k].duration)
    {
      var entry := snippets[i];
      entries := entries + [Entry(EntryId(i + 1), entry.text, entry.start, entry.start + entry.duration)];
    }
    forall j, k | 0 <= j < k < |entries|
      ensures entries[j].id != entries[k].id
    {
      EntryIdsDistinct(j + 1, k + 1);
    }
  }
}
