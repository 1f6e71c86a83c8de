/**
 The playlist rewrite of process_m3u.py: every `rtp://` in the downloaded
 M3U text is replaced by the base URL of a udpxy proxy followed by its
 `/udp/` path, so multicast streams are fetched over HTTP through the proxy.
 The number of `rtp://` occurrences in the original text is reported as the
 number of replacements made.
 */
module ProcessM3u {
  import opened Substrings

  /** The multicast transport scheme that is rewritten. */
  const Scheme: string := "rtp://"

  /** The proxy's base URL plus its fixed `/udp/` path segment. */
  const ProxyPrefix: string := "http://10.109.60.250:4022/udp/"

  /** `rtp://` cannot overlap itself: its first character `r` does not recur. */
  lemma SchemeNoSelfOverlap()
    ensures |Scheme| == 6
    ensures NoSelfOverlap(Scheme)
  {
    assert Scheme[1..] == "tp://";
    UniqueFirstNoSelfOverlap(Scheme);
  }

  /** The proxy prefix holds no `rtp://`: it has no `r` at all. */
  lemma ProxyHasNoScheme()
    ensures |ProxyPrefix| == 30
    ensures !Contains(ProxyPrefix, Scheme)
  {
    assert 'r' !in ProxyPrefix;
    MissingFirstMeansAbsent(ProxyPrefix, Scheme);
  }

  /** No `rtp://` can form across the edges of an inserted proxy prefix: it
      starts with `h`, which `rtp://` lacks, and none of its tails (ending in
      `/udp/`) is a beginning of `rtp://`, because it has no `r`. */
  lemma ProxyBoundarySafe()
    ensures NoBoundaryMatch(Scheme, ProxyPrefix)
  {
    ProxyHasNoScheme();
    assert 'h' !in Scheme;
    assert 'r' !in ProxyPrefix;
    forall i | 0 <= i < |ProxyPrefix|
      ensures !OverhangsAt(ProxyPrefix, Scheme, i)
    {
      assert ProxyPrefix[i..][0] == ProxyPrefix[i];
    }
  }

  /** process_m3u: `content.replace('rtp://', 'http://10.109.60.250:4022/udp/')`.
      No `rtp://` is left; each occurrence taken adds 24 characters; a text
      without `rtp://` is returned as it is. */
  function Process(content: string): (processed: string)
    ensures !Contains(processed, Scheme)
    ensures |processed| == |content| + 24 * CountOcc(content, Scheme)
    ensures !Contains(content, Scheme) ==> processed == content
  {
    ProxyBoundarySafe();
    ReplaceAllRemovesAll(content, Scheme, ProxyPrefix);
    ReplaceAllLength(content, Scheme, ProxyPrefix);
    assert !Contains(content, Scheme) ==> ReplaceAll(content, Scheme, ProxyPrefix) == content by {
      if !Contains(content, Scheme) {
        ReplaceAllAbsent(content, Scheme, ProxyPrefix);
      }
    }
    ReplaceAll(content, Scheme, ProxyPrefix)
  }

  /** process_m3u with its logged count made visible: one left-to-right scan
      that rewrites the text and counts each substitution as it makes it. The
      count it reaches is `content.count('rtp://')` on the original text, so
      the logged "Replaced N occurrences" is exact. */
  method ProcessAndCount(content: string) returns (processed: string, replacementCount: nat)
    ensures processed == Process(content)
    ensures replacementCount == CountOcc(content, Scheme)
  {
    processed, replacementCount := ReplaceCounting(content, Scheme, ProxyPrefix);
  }

  /** The text comes back unchanged exactly when it holds no `rtp://`. */
  lemma ProcessUnchangedIff(content: string)
    ensures Process(content) == content <==> !Contains(content, Scheme)
  {
  }

  /** The logged count is zero exactly when the text comes back unchanged. */
  lemma {:induction false} NoReplacementIffUnchanged(content: string)
    ensures CountOcc(content, Scheme) == 0 <==> Process(content) == content
  {
    CountOccPositiveIffContains(content, Scheme);
  }

  /** Processing twice is processing once. */
  lemma ProcessIdempotent(content: string)
    ensures Process(Process(content)) == Process(content)
  {
  }

  /** Every `rtp://` occurrence in the text is counted once: the scan's count
      equals the number of positions where `rtp://` starts. */
  lemma CountIsEveryOccurrence(content: string)
    ensures CountOcc(content, Scheme) == NaiveCount(content, Scheme)
  {
    SchemeNoSelfOverlap();
    CountOccIsNaiveCount(content, Scheme);
  }

  /** Only the scheme token is substituted: an address `rtp://` + rest
      becomes the proxy prefix followed by the processed rest. */
  lemma ProcessSchemePrefix(rest: string)
    ensures Process(Scheme + rest) == ProxyPrefix + Process(rest)
  {
  }

  /** An address `rtp://` + rest whose rest holds no further `rtp://` becomes
      the proxy prefix followed by that same rest, verbatim. */
  lemma ProcessAddress(rest: string)
    requires !Contains(rest, Scheme)
    ensures Process(Scheme + rest) == ProxyPrefix + rest
  {
    ProcessSchemePrefix(rest);
  }

  /** A concrete multicast address, character for character: only the
      scheme token changes, host, port and path are carried through. The
      address is a parameter pinned by `requires` rather than a literal in the
      `ensures`, so that the verifier does not evaluate `Process` on it. */
  lemma ProcessExampleAddress(address: string)
    requires address == "rtp://239.1.1.1:1234/x"
    ensures Process(address) == "http://10.109.60.250:4022/udp/239.1.1.1:1234/x"
  {
    var rest := "239.1.1.1:1234/x";
    assert address == Scheme + rest;
    assert Scheme[0] !in rest;
    MissingFirstMeansAbsent(rest, Scheme);
    ProcessAddress(rest);
  }

  /** Text before an `rtp://` that holds no `rtp://` itself, such as the
      `Name ` of `Name rtp://1.2.3.4:5/`, is carried through verbatim: only
      the scheme token is replaced and the rest is rewritten as usual. */
  lemma ProcessVerbatimBefore(u: string, v: string)
    requires !Contains(u, Scheme)
    ensures Process(u + Scheme + v) == u + ProxyPrefix + Process(v)
  {
    SchemeNoSelfOverlap();
    var w := Scheme + v;
    assert u + Scheme + v == u + w;
    assert forall k | 0 < k < |Scheme| :: Scheme[k] != 'r' by {
      assert Scheme[1..] == "tp://";
      assert 'r' !in Scheme[1..];
    }
    // An occurrence straddling the end of `u` would have the `r` of the
    // inserted scheme at an index other than 0.
    forall i | 0 <= i < |u| < i + |Scheme|
      ensures !OccursAt(u + w, Scheme, i)
    {
      if i + |Scheme| <= |u + w| {
        assert (u + w)[i..i + |Scheme|][|u| - i] == 'r';
      }
    }
    ReplaceAllConcat(u, w, Scheme, ProxyPrefix);
    ReplaceAllAbsent(u, Scheme, ProxyPrefix);
    ProcessSchemePrefix(v);
  }

  /** `rtp://` holds no newline, so two lines joined by a newline are
      rewritten independently. */
  lemma ProcessAcrossNewline(a: string, b: string)
    ensures Process(a + "\n" + b) == Process(a) + "\n" + Process(b)
  {
    assert '\n' !in Scheme;
    ReplaceAllAcrossSeparator(a, '\n', b, Scheme, ProxyPrefix);
  }

  /** The playlist as its lines joined by newlines. */
  function JoinLines(lines: seq<string>): string
    decreases |lines|
  {
    if |lines| == 0 then ""
    else if |lines| == 1 then lines[0]
    else lines[0] + "\n" + JoinLines(lines[1..])
  }

  /** Each line processed on its own. */
  function ProcessEach(lines: seq<string>): (out: seq<string>)
    ensures |out| == |lines|
    ensures forall i :: 0 <= i < |lines| ==> out[i] == Process(lines[i])
    decreases |lines|
  {
    if |lines| == 0 then [] else [Process(lines[0])] + ProcessEach(lines[1..])
  }

  /** Processing a whole playlist is processing each of its lines. */
  lemma {:induction false} ProcessLineByLine(lines: seq<string>)
    ensures Process(JoinLines(lines)) == JoinLines(ProcessEach(lines))
    decreases |lines|
  {
    if |lines| >= 2 {
      ProcessAcrossNewline(lines[0], JoinLines(lines[1..]));
      ProcessLineByLine(lines[1..]);
      assert ProcessEach(lines)[1..] == ProcessEach(lines[1..]);
    }
  }
}
