/**
 * The CrossRef client's DOI clean-up.  A DOI may be given bare or as a
 * resolver link; everything up to and including the first "doi.org/" (in any
 * case) is cut off, and the rest names the work requested from CrossRef.
 */
module CrossRef {
  import opened Common

  /** The resolver marker searched for. */
  const Marker: string := "doi.org/"

  /** The marker starts at position `i` of `s`, ignoring case. */
  predicate MarkerAt(s: string, i: int)
  {
    0 <= i && i + |Marker| <= |s| && IsMarker(s[i..i + |Marker|])
  }

  /** `piece` is the marker in some letter case. */
  predicate IsMarker(piece: string)
  {
    EqualsIgnoreCase(piece, Marker)
  }

  /**
   * `s.IndexOf("doi.org/", StringComparison.OrdinalIgnoreCase)` scanned from
   * position `i`: the first position at or after `i` where the marker starts,
   * or -1.
   */
  function MarkerIndexFrom(s: string, i: nat): (r: int)
    ensures r == -1 || (i <= r && MarkerAt(s, r))
    decreases |s| - i
  {
    if i + |Marker| > |s| then -1
    else if MarkerAt(s, i) then i
    else MarkerIndexFrom(s, i + 1)
  }

  /** The scan returns the first occurrence, and -1 exactly when there is none. */
  lemma MarkerIndexFromFirst(s: string, i: nat)
    ensures MarkerIndexFrom(s, i) == -1 <==> forall k :: i <= k ==> !MarkerAt(s, k)
    ensures forall k :: i <= k < MarkerIndexFrom(s, i) ==> !MarkerAt(s, k)
  {
    MarkerIndexFromNone(s, i);
    MarkerIndexFromEarlier(s, i);
  }

  lemma {:induction false} MarkerIndexFromNone(s: string, i: nat)
    ensures MarkerIndexFrom(s, i) == -1 <==> forall k :: i <= k ==> !MarkerAt(s, k)
    decreases |s| - i
  {
    if i + |Marker| <= |s| && !MarkerAt(s, i) {
      MarkerIndexFromNone(s, i + 1);
    }
  }

  lemma {:induction false} MarkerIndexFromEarlier(s: string, i: nat)
    ensures forall k :: i <= k < MarkerIndexFrom(s, i) ==> !MarkerAt(s, k)
    decreases |s| - i
  {
    if i + |Marker| <= |s| && !MarkerAt(s, i) {
      MarkerIndexFromEarlier(s, i + 1);
    }
  }

  /** `ExtractDoi`: the text after the first marker, or the input unchanged when it has none. */
  function ExtractDoi(input: string): (r: string)
    ensures |r| <= |input| && r == input[|input| - |r|..]
    ensures (forall k :: !MarkerAt(input, k)) ==> r == input
  {
    var doiIndex := MarkerIndexFrom(input, 0);
    if doiIndex >= 0 then input[doiIndex + 8..] else input
  }

  /** The request path of `GetWorkByDoiAsync`. */
  function WorksPath(doi: string): (r: string)
    ensures |r| >= 6 && r[..6] == "works/"
    ensures |r| <= |doi| + 6 && r[6..] == doi[|doi| - (|r| - 6)..]
  {
    "works/" + ExtractDoi(doi)
  }

  /**
   * What `ExtractDoi` returns: when the input holds the marker, it is the input
   * from the end of the first marker on, so the eight characters skipped are
   * exactly the marker; otherwise it is the input.
   */
  lemma ExtractDoiMeaning(input: string)
    ensures (forall k :: !MarkerAt(input, k)) ==> ExtractDoi(input) == input
    ensures (exists k :: MarkerAt(input, k)) ==>
      exists p :: 0 <= p && MarkerAt(input, p) && (forall k :: 0 <= k < p ==> !MarkerAt(input, k))
        && input == input[..p] + input[p..p + |Marker|] + ExtractDoi(input)
        && EqualsIgnoreCase(input[p..p + |Marker|], Marker)
  {
    MarkerIndexFromFirst(input, 0);
    var p := MarkerIndexFrom(input, 0);
    if p >= 0 {
      assert |Marker| == 8;
      assert input == input[..p] + input[p..p + |Marker|] + input[p + 8..];
    }
  }

  /** A resolver link whose prefix holds no marker yields the DOI after it. */
  lemma ExtractAfterMarker(prefix: string, marker: string, doi: string)
    requires IsMarker(marker)
    requires forall k :: 0 <= k < |prefix| ==> !MarkerAt(prefix + marker + doi, k)
    ensures ExtractDoi(prefix + marker + doi) == doi
    ensures WorksPath(prefix + marker + doi) == "works/" + doi
  {
    var s := prefix + marker + doi;
    assert |marker| == |Upper(marker)| == |Upper(Marker)| == 8;
    assert s[|prefix|..|prefix| + |Marker|] == marker;
    assert MarkerAt(s, |prefix|);
    MarkerIndexFromFirst(s, 0);
    var p := MarkerIndexFrom(s, 0);
    assert p == |prefix|;
    assert s[p + 8..] == doi;
  }

  /** A resolver link gives the bare DOI after it, whatever that DOI is. */
  lemma ExtractFromLink(doi: string)
    ensures ExtractDoi("https://" + Marker + doi) == doi
  {
    NoMarkerPrefix("https://", Marker, doi);
    ExtractAfterMarker("https://", Marker, doi);
  }

  /** The marker is found in any letter case. */
  lemma ExtractFromUpperCaseLink(doi: string)
    ensures ExtractDoi("HTTPS://" + "DOI.ORG/" + doi) == doi
  {
    UpperCaseMarker();
    NoMarkerPrefix("HTTPS://", "DOI.ORG/", doi);
    ExtractAfterMarker("HTTPS://", "DOI.ORG/", doi);
  }

  /** "DOI.ORG/" is the marker in capitals. */
  lemma UpperCaseMarker()
    ensures IsMarker("DOI.ORG/")
  {
    var marker := "DOI.ORG/";
    assert Upper(marker) == marker by {
      forall j | 0 <= j < 8 ensures Upper(marker)[j] == marker[j] {
      }
    }
    assert Upper(Marker) == marker by {
      forall j | 0 <= j < 8 ensures Upper(Marker)[j] == marker[j] {
      }
    }
  }

  /** A bare DOI is returned unchanged. */
  lemma ExtractFromBare()
    ensures ExtractDoi("10.1000/xyz") == "10.1000/xyz"
  {
    var bare := "10.1000/xyz";
    forall k
      ensures !MarkerAt(bare, k)
    {
      if 0 <= k && k + 8 <= |bare| {
        assert Upper(bare[k..k + 8])[0] == UpperChar(bare[k]) != 'D';
        assert Upper(Marker)[0] == 'D';
      }
    }
    MarkerIndexFromFirst(bare, 0);
  }

  /** Neither "https://" nor "HTTPS://" can hold the start of a marker. */
  lemma NoMarkerPrefix(prefix: string, marker: string, doi: string)
    requires prefix == "https://" || prefix == "HTTPS://"
    ensures forall k :: 0 <= k < |prefix| ==> !MarkerAt(prefix + marker + doi, k)
  {
    var s := prefix + marker + doi;
    forall k | 0 <= k < |prefix|
      ensures !MarkerAt(s, k)
    {
      if k + 8 <= |s| {
        assert s[k] == prefix[k];
        assert Upper(s[k..k + 8])[0] == UpperChar(s[k]) != 'D';
        assert Upper(Marker)[0] == 'D';
      }
    }
  }
}
