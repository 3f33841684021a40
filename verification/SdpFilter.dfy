/**
 * The DESCRIBE response of `YiRTSPServer`: the reverse audio track is taken
 * out of the session description and the Content-Length is written anew.
 */
module SdpFilter {
  const MEDIA := "m="
  const NEXT_MEDIA := "\r\nm="
  const REVERSE := "\r\na=sendonly\r\n"

  // ----- searching -----

  predicate At(s: string, pat: string, k: int) {
    0 <= k && k + |pat| <= |s| && forall j :: 0 <= j < |pat| ==> s[k + j] == pat[j]
  }

  /** `std::string::find`; -1 stands for `npos`. */
  function Find(s: string, pat: string, from: nat): (k: int)
    ensures k == -1 || (from <= k && At(s, pat, k))
    ensures forall j :: from <= j && (k == -1 || j < k) ==> !At(s, pat, j)
    decreases |s| - from
  {
    if from + |pat| > |s| then -1
    else if At(s, pat, from) then from
    else Find(s, pat, from + 1)
  }

  /** The first occurrence is the only one `Find` can mean. */
  lemma FindIs(s: string, pat: string, from: nat, k: int)
    requires from <= k && At(s, pat, k) && forall j :: from <= j < k ==> !At(s, pat, j)
    ensures Find(s, pat, from) == k
  {
  }

  lemma FindNothing(s: string, pat: string, from: nat)
    requires forall j :: from <= j ==> !At(s, pat, j)
    ensures Find(s, pat, from) == -1
  {
  }

  // The three patterns, letter by letter.

  lemma AtNextMedia(s: string, k: int)
    ensures At(s, NEXT_MEDIA, k)
       <==> 0 <= k && k + 4 <= |s| && s[k] == '\r' && s[k + 1] == '\n' && s[k + 2] == 'm' && s[k + 3] == '='
  {
    assert At(s, NEXT_MEDIA, k) ==>
             && s[k + 0] == NEXT_MEDIA[0] && s[k + 1] == NEXT_MEDIA[1]
             && s[k + 2] == NEXT_MEDIA[2] && s[k + 3] == NEXT_MEDIA[3];
  }

  lemma AtMedia(s: string, k: int)
    ensures At(s, MEDIA, k) <==> 0 <= k && k + 2 <= |s| && s[k] == 'm' && s[k + 1] == '='
  {
    assert At(s, MEDIA, k) ==> s[k + 0] == MEDIA[0] && s[k + 1] == MEDIA[1];
  }

  predicate EndsLine(s: string) {
    |s| >= 2 && s[|s| - 2] == '\r' && s[|s| - 1] == '\n'
  }

  /** Text further left does not move an occurrence. */
  lemma AtShifted(head: string, s: string, pat: string, j: int)
    requires j >= 0
    ensures At(head + s, pat, |head| + j) <==> At(s, pat, j)
  {
    if At(s, pat, j) {
      assert At(head + s, pat, |head| + j);
    } else if At(head + s, pat, |head| + j) {
      forall i | 0 <= i < |pat| ensures s[j + i] == pat[i] {
        assert (head + s)[|head| + j + i] == pat[i];
      }
    }
  }

  /** Nor does text further right. */
  lemma AtLeft(s: string, tail: string, pat: string, j: int)
    requires j + |pat| <= |s|
    ensures At(s + tail, pat, j) <==> At(s, pat, j)
  {
    if At(s, pat, j) { assert At(s + tail, pat, j); }
  }

  lemma FindShifted(head: string, s: string, pat: string, from: nat)
    ensures Find(head + s, pat, |head| + from)
         == if Find(s, pat, from) == -1 then -1 else |head| + Find(s, pat, from)
  {
    var k := Find(s, pat, from);
    forall j | from <= j ensures At(head + s, pat, |head| + j) <==> At(s, pat, j) {
      AtShifted(head, s, pat, j);
    }
    if k == -1 {
      forall j | |head| + from <= j ensures !At(head + s, pat, j) {
        assert At(head + s, pat, |head| + (j - |head|)) <==> At(s, pat, j - |head|);
      }
    } else {
      forall j | |head| + from <= j < |head| + k ensures !At(head + s, pat, j) {
        assert At(head + s, pat, |head| + (j - |head|)) <==> At(s, pat, j - |head|);
      }
      FindIs(head + s, pat, |head| + from, |head| + k);
    }
  }

  // ----- media sections -----

  function Join(ts: seq<string>): string {
    if ts == [] then "" else ts[0] + Join(ts[1..])
  }

  predicate Reverse(t: string) {
    Find(t, REVERSE, 0) != -1
  }

  /** A section is the reverse track's exactly when the line stands somewhere in it. */
  lemma ReverseExactlyWhen(t: string)
    ensures Reverse(t) <==> exists k :: At(t, "\r\na=sendonly\r\n", k)
  {
    hide At;
    if k :| At(t, "\r\na=sendonly\r\n", k) { AtIsInside(t, REVERSE, k); }
  }

  lemma AtIsInside(s: string, pat: string, k: int)
    requires At(s, pat, k)
    ensures 0 <= k
  {
  }

  /** The sections that stay. */
  function Kept(ts: seq<string>): seq<string> {
    if ts == [] then [] else (if Reverse(ts[0]) then [] else [ts[0]]) + Kept(ts[1..])
  }

  /** Cut before every line that starts a media section. */
  function Sections(s: string): (ts: seq<string>)
    ensures ts != []
    decreases |s|
  {
    var k := Find(s, NEXT_MEDIA, 0);
    if k == -1 then [s] else [s[..k + 2]] + Sections(s[k + 2..])
  }

  /** The loop's result, told without the loop. */
  function Filtered(sdp: string): string {
    var k := Find(sdp, MEDIA, 0);
    if k == -1 then sdp else sdp[..k] + Join(Kept(Sections(sdp[k..])))
  }

  /** Where the first section of a text ends. */
  function CutAt(s: string): (e: nat)
    ensures e <= |s| && (Find(s, NEXT_MEDIA, 0) != -1 ==> 2 <= e < |s|)
  {
    var k := Find(s, NEXT_MEDIA, 0);
    if k == -1 then |s| else k + 2
  }

  lemma KeptFromTheFirst(s: string)
    ensures var e := CutAt(s);
            Join(Kept(Sections(s))) == (if Reverse(s[..e]) then "" else s[..e])
                                       + if e == |s| then "" else Join(Kept(Sections(s[e..])))
  {
    hide At, Reverse, Find;
    var e, ts := CutAt(s), Sections(s);
    assert ts[0] == s[..e];
    var ks := Kept(ts[1..]);
    assert e == |s| ==> ts[1..] == [];
    assert e < |s| ==> ts[1..] == Sections(s[e..]);
    if !Reverse(ts[0]) {
      assert Kept(ts) == [ts[0]] + ks;
      assert Kept(ts)[1..] == ks;
    } else {
      assert Kept(ts) == [] + ks;
      assert [] + ks == ks;
    }
  }

  /** One turn of the loop: the section at `start` goes, or is passed over. */
  method Turn(sdp: string, start: nat) returns (next: string, then': int)
    requires start <= |sdp|
    ensures var left := sdp[start..];
            var e := CutAt(left);
            && next == sdp[..start] + (if Reverse(left[..e]) then "" else left[..e]) + left[e..]
            && then' == if Reverse(left[..e]) then start else if e == |left| then -1 else start + e
  {
    hide At, Find;
    ghost var left := sdp[start..];
    assert sdp == sdp[..start] + left;
    FindShifted(sdp[..start], left, NEXT_MEDIA, 0);
    var end := Find(sdp, NEXT_MEDIA, start);
    if end != -1 { end := end + 2; }
    ghost var e := CutAt(left);
    assert end == if e == |left| then -1 else start + e;
    var track := if end == -1 then sdp[start..] else sdp[start..end];
    assert track == left[..e];
    next, then' := sdp, start;
    if Find(track, REVERSE, 0) != -1 {
      next := if end == -1 then sdp[..start] else sdp[..start] + sdp[end..];
      assert end != -1 ==> sdp[end..] == left[e..];
    } else {
      then' := end;
    }
  }

  /** The loop of `handleCmd_DESCRIBE_afterLookup`; it ends on every text. */
  method Filter(original: string) returns (sdp: string)
    ensures sdp == Filtered(original)
  {
    hide Kept, Sections, Join, Reverse;
    sdp := original;
    var start := Find(sdp, MEDIA, 0);
    if start == -1 { return; }
    ghost var done := sdp[..start];
    ghost var left := sdp[start..];
    while start != -1
      invariant start == -1 ==> sdp == Filtered(original)
      invariant start != -1 ==>
        && start == |done| && sdp == done + left
        && Filtered(original) == done + Join(Kept(Sections(left)))
      decreases if start == -1 then 0 else 1 + |left|
    {
      KeptFromTheFirst(left);
      assert sdp[start..] == left && sdp[..start] == done;
      ghost var e := CutAt(left);
      ghost var piece := if Reverse(left[..e]) then "" else left[..e];
      sdp, start := Turn(sdp, start);
      done := done + piece;
      left := left[e..];
      assert sdp == done + left;
      if start == -1 || start >= |sdp| { break; }
    }
  }

  // ----- what the cuts are -----

  predicate Starts(s: string) { At(s, MEDIA, 0) }

  /** Text cut into lines' worth: only the first piece may start otherwise, only the last may lack its line end. */
  ghost predicate WellCut(ts: seq<string>) {
    && ts != []
    && (forall i :: 0 <= i < |ts| ==> Find(ts[i], NEXT_MEDIA, 0) == -1)
    && (forall i :: 0 < i < |ts| ==> Starts(ts[i]))
    && (forall i :: 0 <= i < |ts| - 1 ==> EndsLine(ts[i]))
  }

  lemma {:induction false} SectionsAreWellCut(s: string)
    ensures WellCut(Sections(s)) && Join(Sections(s)) == s
    ensures Starts(s) ==> Starts(Sections(s)[0])
    decreases |s|
  {
    hide At;
    var k := Find(s, NEXT_MEDIA, 0);
    if k != -1 {
      AtNextMedia(s, k);
      var first, rest := s[..k + 2], s[k + 2..];
      assert s == first + rest;
      SectionsAreWellCut(rest);
      AtMedia(rest, 0);
      forall j | 0 <= j ensures !At(first, NEXT_MEDIA, j) {
        if j + 4 <= |first| { AtLeft(first, rest, NEXT_MEDIA, j); } else { AtNextMedia(first, j); }
      }
      FindNothing(first, NEXT_MEDIA, 0);
      AtMedia(s, 0);
      AtMedia(first, 0);
    }
  }

  /** No other well-cut list spells the same text. */
  lemma {:induction false} WellCutIsUnique(ts: seq<string>)
    requires WellCut(ts)
    ensures Sections(Join(ts)) == ts
  {
    hide At, Find, Starts, EndsLine, Sections;
    var t, rest := ts[0], ts[1..];
    assert ts == [t] + rest;
    if rest == [] {
      assert Join(ts) == t by { assert t + Join([]) == t; }
      OneSection(t);
    } else {
      WellCutIsUnique(rest);
      StartsJoin(rest);
      NextSection(t, Join(rest));
    }
  }

  lemma OneSection(t: string)
    requires Find(t, NEXT_MEDIA, 0) == -1
    ensures Sections(t) == [t]
  {
  }

  lemma NextSection(t: string, j: string)
    requires Find(t, NEXT_MEDIA, 0) == -1 && EndsLine(t) && Starts(j)
    ensures Sections(t + j) == [t] + Sections(j)
  {
    hide At, Find;
    FindAtTheSeam(t, j);
    assert (t + j)[..|t|] == t && (t + j)[|t|..] == j;
  }

  lemma StartsJoin(ts: seq<string>)
    requires ts != [] && Starts(ts[0])
    ensures Starts(Join(ts))
  {
    AtLeft(ts[0], Join(ts[1..]), MEDIA, 0);
  }

  lemma FindAtTheSeam(t: string, j: string)
    requires Find(t, NEXT_MEDIA, 0) == -1 && EndsLine(t) && Starts(j)
    ensures Find(t + j, NEXT_MEDIA, 0) == |t| - 2
  {
    hide At;
    var s, n := t + j, |t|;
    AtMedia(j, 0);
    AtNextMedia(s, n - 2);
    forall i | 0 <= i < n - 2 ensures !At(s, NEXT_MEDIA, i) {
      if i + 4 <= n { AtLeft(t, j, NEXT_MEDIA, i); } else { AtNextMedia(s, i); }
    }
    FindIs(s, NEXT_MEDIA, 0, n - 2);
  }

  // ----- session part and media sections -----

  /** Where the first media line starts. */
  function MediaStart(sdp: string): (e: nat)
    ensures e <= |sdp|
  {
    if Starts(sdp) then 0 else CutAt(sdp)
  }

  function Tracks(sdp: string): seq<string> {
    var e := MediaStart(sdp);
    if e == |sdp| then [] else Sections(sdp[e..])
  }

  /** What the filter is for: the session part, then the media sections that do not send only. */
  function Wanted(sdp: string): string {
    sdp[..MediaStart(sdp)] + Join(Kept(Tracks(sdp)))
  }

  /** An `m=` inside the session part, with a session-level `a=sendonly` line after it. */
  predicate SessionCutShort(sdp: string) {
    var k, e := Find(sdp, MEDIA, 0), MediaStart(sdp);
    k != -1 && k < e && Reverse(sdp[k..e])
  }

  /** A media line, where there is one, is an occurrence of `m=`. */
  lemma MediaStartIsMedia(sdp: string)
    ensures MediaStart(sdp) < |sdp| ==> At(sdp, MEDIA, MediaStart(sdp))
    ensures MediaStart(sdp) == 0 || MediaStart(sdp) == |sdp| || EndsLine(sdp[..MediaStart(sdp)])
  {
    hide At;
    var k := Find(sdp, NEXT_MEDIA, 0);
    if !Starts(sdp) && k != -1 {
      AtNextMedia(sdp, k);
      AtMedia(sdp, k + 2);
    }
  }

  /** With `m=` before the media line, the first piece cut is what is left of the session part. */
  lemma FirstPiece(sdp: string)
    requires var k := Find(sdp, MEDIA, 0); k != -1 && k < MediaStart(sdp)
    ensures CutAt(sdp[Find(sdp, MEDIA, 0)..]) == MediaStart(sdp) - Find(sdp, MEDIA, 0)
  {
    hide At;
    var k, e := Find(sdp, MEDIA, 0), MediaStart(sdp);
    var head, left := sdp[..k], sdp[k..];
    assert sdp == head + left;
    FindShifted(head, left, NEXT_MEDIA, 0);
    AtMedia(sdp, k);
    if e < |sdp| {
      AtNextMedia(sdp, e - 2);
      AtMedia(sdp, e);
      FindIs(sdp, NEXT_MEDIA, k, e - 2);
    } else {
      FindNothing(sdp, NEXT_MEDIA, k);
    }
  }

  /**
   * The filter yields exactly the session part and the media sections that
   * stay, in order and unchanged, unless the session part itself is cut short.
   */
  lemma FilterIsBySection(sdp: string)
    ensures Filtered(sdp) == Wanted(sdp) <==> !SessionCutShort(sdp)
  {
    var k, e := Find(sdp, MEDIA, 0), MediaStart(sdp);
    MediaLineFound(sdp);
    if k != -1 && k < e { CutShortOrNot(sdp, k, e); }
  }

  lemma CutShortOrNot(sdp: string, k: nat, e: nat)
    requires Find(sdp, MEDIA, 0) == k < e == MediaStart(sdp)
    ensures Filtered(sdp) == Wanted(sdp) <==> !Reverse(sdp[k..e])
  {
    hide At, Find, Reverse, CutAt, Join, Kept, Sections, MediaStart;
    FirstPiece(sdp);
    var left := sdp[k..];
    KeptFromTheFirst(left);
    var piece := left[..e - k];
    assert piece == sdp[k..e] && left[e - k..] == sdp[e..];
    var rest := Join(Kept(Tracks(sdp)));
    assert rest == if e == |sdp| then "" else Join(Kept(Sections(sdp[e..]))) by { NothingJoins(); }
    assert sdp[..k] + (piece + rest) == sdp[..e] + rest;
  }

  lemma NothingJoins()
    ensures Join(Kept([])) == ""
  {
  }

  lemma MediaLineFound(sdp: string)
    ensures var k, e := Find(sdp, MEDIA, 0), MediaStart(sdp);
            && (k == -1 ==> e == |sdp|)
            && (k != -1 ==> k <= e && k < |sdp| && (k == e ==> e < |sdp|))
  {
    MediaStartIsMedia(sdp);
  }

  /** Such a session part exists; every other letter of it is beside the point. */
  lemma ASessionCutShort()
    ensures SessionCutShort("am=" + REVERSE) && Filtered("am=" + REVERSE) != Wanted("am=" + REVERSE)
  {
    hide At, Find, Reverse, Filtered, Wanted;
    var sdp := "am=" + REVERSE;
    FilterIsBySection(sdp);
    NoMediaLine(sdp);
    FirstMediaIsSecond(sdp);
    SendsOnly(sdp);
  }

  lemma FirstMediaIsSecond(sdp: string)
    requires sdp == "am=" + REVERSE
    ensures Find(sdp, MEDIA, 0) == 1 && !Starts(sdp)
  {
    hide At;
    AtMedia(sdp, 0);
    AtMedia(sdp, 1);
    FindIs(sdp, MEDIA, 0, 1);
  }

  lemma SendsOnly(sdp: string)
    requires sdp == "am=" + REVERSE
    ensures Reverse(sdp[1..|sdp|])
  {
    assert At(sdp[1..|sdp|], REVERSE, 2);
  }

  lemma NoMediaLine(sdp: string)
    requires sdp == "am=" + REVERSE
    ensures Find(sdp, NEXT_MEDIA, 0) == -1
  {
    hide At;
    forall j | 0 <= j ensures !At(sdp, NEXT_MEDIA, j) { AtNextMedia(sdp, j); }
    FindNothing(sdp, NEXT_MEDIA, 0);
  }

  // ----- a second pass -----

  /** Sections that are kept stay as they are. */
  lemma KeptInFront(t: string, ts: seq<string>)
    ensures Kept([t] + ts) == if Reverse(t) then Kept(ts) else [t] + Kept(ts)
  {
    hide Reverse;
    assert ([t] + ts)[1..] == ts;
  }

  lemma {:induction false} KeptOnes(ts: seq<string>)
    requires forall i :: 0 <= i < |ts| ==> Starts(ts[i])
    ensures forall t :: t in Kept(ts) ==> Starts(t) && !Reverse(t)
    ensures Kept(Kept(ts)) == Kept(ts)
  {
    hide At, Find, Reverse, Starts, Kept;
    if ts == [] {
      NothingKept();
    } else {
      var rest := ts[1..];
      assert ts == [ts[0]] + rest;
      KeptOnes(rest);
      KeptInFront(ts[0], rest);
      KeptInFront(ts[0], Kept(rest));
    }
  }

  lemma NothingKept()
    ensures Kept([]) == []
  {
  }

  lemma {:induction false} KeptIsWellCut(ts: seq<string>)
    requires ts == [] || WellCut(ts)
    requires forall i :: 0 <= i < |ts| ==> Starts(ts[i])
    ensures Kept(ts) == [] || WellCut(Kept(ts))
    ensures forall t :: t in Kept(ts) ==> Starts(t) && !Reverse(t)
    ensures Kept(Kept(ts)) == Kept(ts)
  {
    hide At, Find, Reverse, Starts, EndsLine, Kept;
    KeptOnes(ts);
    if ts == [] {
      NothingKept();
    } else {
      var rest := ts[1..];
      assert ts == [ts[0]] + rest;
      KeptIsWellCut(rest);
      KeptInFront(ts[0], rest);
      if rest == [] { NothingKept(); }
    }
  }

  lemma {:induction false} StartingSections(s: string)
    requires Starts(s)
    ensures forall i :: 0 <= i < |Sections(s)| ==> Starts(Sections(s)[i])
  {
    SectionsAreWellCut(s);
  }

  /** No reverse track is left, and the filter has nothing more to do on its own result. */
  lemma FilteringAgainChangesNothing(sdp: string)
    ensures Filtered(Filtered(sdp)) == Filtered(sdp)
  {
    hide At, Sections, Kept, Reverse;
    var k := Find(sdp, MEDIA, 0);
    if k != -1 {
      AtMedia(sdp, k);
      var head, left := sdp[..k], sdp[k..];
      assert sdp == head + left;
      AtMedia(left, 0);
      StartingSections(left);
      SectionsAreWellCut(left);
      var ks := Kept(Sections(left));
      KeptIsWellCut(Sections(left));
      var out := head + Join(ks);
      forall j | 0 <= j < k ensures !At(out, MEDIA, j) { StillNoMedia(sdp, ks, k, j); }
      if ks == [] {
        assert out == head;
        forall j | 0 <= j ensures !At(out, MEDIA, j) { AtMedia(out, j); }
        FindNothing(out, MEDIA, 0);
      } else {
        assert ks[0] in ks;
        StartsJoin(ks);
        WellCutIsUnique(ks);
        AtMedia(Join(ks), 0);
        AtMedia(out, k);
        FindIs(out, MEDIA, 0, k);
        assert out[..k] == head && out[k..] == Join(ks);
      }
    }
  }

  lemma StillNoMedia(sdp: string, ks: seq<string>, k: nat, j: nat)
    requires k == Find(sdp, MEDIA, 0) && j < k
    requires ks == [] || Starts(ks[0])
    ensures !At(sdp[..k] + Join(ks), MEDIA, j)
  {
    hide At;
    AtMedia(sdp, k);
    AtMedia(sdp, j);
    var out := sdp[..k] + Join(ks);
    AtMedia(out, j);
    if ks != [] { StartsJoin(ks); AtMedia(Join(ks), 0); }
  }
}
