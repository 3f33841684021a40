/**
 * The rest of `handleCmd_DESCRIBE_afterLookup`: finding the body in the
 * response and writing the Content-Length anew.
 */
module DescribeResponse {
  import opened SdpFilter

  const BLANK := "\r\n\r\n"
  const CRLF := "\r\n"
  const LENGTH := "Content-Length: "

  // ----- decimal numbers -----

  function Digit(n: nat): char
    requires n < 10
  {
    '0' + n as char
  }

  predicate IsDigit(c: char) { '0' <= c <= '9' }

  /** `std::to_string`. */
  function Decimal(n: nat): (s: string)
    ensures s != [] && forall i :: 0 <= i < |s| ==> IsDigit(s[i])
  {
    if n < 10 then [Digit(n)] else Decimal(n / 10) + [Digit(n % 10)]
  }

  function DigitValue(c: char): nat
    requires IsDigit(c)
  {
    c as int - '0' as int
  }

  function Value(s: string): nat
    requires forall i :: 0 <= i < |s| ==> IsDigit(s[i])
  {
    if s == [] then 0 else 10 * Value(s[..|s| - 1]) + DigitValue(s[|s| - 1])
  }

  lemma {:induction false} ValueOfDecimal(n: nat)
    ensures Value(Decimal(n)) == n
  {
    if n >= 10 {
      ValueOfDecimal(n / 10);
      assert Decimal(n)[..|Decimal(n)| - 1] == Decimal(n / 10);
    }
  }

  lemma {:induction false} SmallerIsNoLonger(m: nat, n: nat)
    requires m <= n
    ensures |Decimal(m)| <= |Decimal(n)|
  {
    if m >= 10 { SmallerIsNoLonger(m / 10, n / 10); }
  }

  // ----- the response -----

  /** What the base class leaves in the buffer: a header with a Content-Length, a blank line, the description. */
  predicate WellFormed(response: string) {
    var body, length := Find(response, BLANK, 0), Find(response, LENGTH, 0);
    body != -1 && length != -1 && length + |LENGTH| <= body
  }

  function Body(response: string): string {
    var body := Find(response, BLANK, 0);
    if body == -1 then "" else response[body + 4..]
  }

  /** The text after `Content-Length: ` up to the end of its line. */
  function Declared(response: string): string {
    var length := Find(response, LENGTH, 0);
    if length == -1 then "" else
      var end := Find(response, CRLF, length + |LENGTH|);
      if end == -1 then response[length + |LENGTH|..] else response[length + |LENGTH|..end]
  }

  /** Where the line ends that holds the Content-Length. */
  function LineEnd(response: string): (end: nat)
    requires WellFormed(response)
    ensures Find(response, LENGTH, 0) + |LENGTH| <= end <= Find(response, BLANK, 0)
  {
    LengthLine(response);
    Find(response, CRLF, Find(response, LENGTH, 0))
  }

  function Rewritten(response: string): (out: string)
    requires WellFormed(response)
  {
    var body, length := Find(response, BLANK, 0), Find(response, LENGTH, 0);
    AtBlank(response, body);
    var sdp := Filtered(response[body + 4..]);
    response[..length] + LENGTH + Decimal(|sdp|) + response[LineEnd(response)..body + 4] + sdp
  }

  lemma AtCrlf(s: string, k: int)
    ensures At(s, CRLF, k) <==> 0 <= k && k + 2 <= |s| && s[k] == '\r' && s[k + 1] == '\n'
  {
    assert At(s, CRLF, k) ==> s[k + 0] == CRLF[0] && s[k + 1] == CRLF[1];
  }

  lemma AtBlank(s: string, k: int)
    ensures At(s, BLANK, k)
       <==> 0 <= k && k + 4 <= |s| && s[k] == '\r' && s[k + 1] == '\n' && s[k + 2] == '\r' && s[k + 3] == '\n'
  {
    assert At(s, BLANK, k) ==>
             s[k + 0] == BLANK[0] && s[k + 1] == BLANK[1] && s[k + 2] == BLANK[2] && s[k + 3] == BLANK[3];
  }

  lemma InsideLength(s: string, length: nat, j: nat)
    requires At(s, LENGTH, length) && length <= j < length + |LENGTH|
    ensures s[j] != '\r'
  {
    assert s[length + (j - length)] == LENGTH[j - length];
  }

  lemma LengthLine(response: string)
    requires WellFormed(response)
    ensures Find(response, LENGTH, 0) + |LENGTH|
         <= Find(response, CRLF, Find(response, LENGTH, 0)) <= Find(response, BLANK, 0)
  {
    hide At;
    var length, body := Find(response, LENGTH, 0), Find(response, BLANK, 0);
    AtBlank(response, body);
    AtCrlf(response, body);
    var end := Find(response, CRLF, length);
    AtCrlf(response, end);
    if end < length + |LENGTH| { InsideLength(response, length, end); }
  }

  /** What becomes of the response; `substr` from the end of a line that does not end throws `out_of_range`. */
  datatype Answered = Sent(text: string) | Thrown

  /** A Content-Length that is first found in the body is replaced there, and the rest of the body stays in front. */
  function Misplaced(response: string): Answered
    requires Find(response, BLANK, 0) != -1 && Find(response, LENGTH, 0) != -1 && !WellFormed(response)
  {
    AtBlank(response, Find(response, BLANK, 0));
    var body, length := Find(response, BLANK, 0), Find(response, LENGTH, 0);
    var end := Find(response, CRLF, length);
    var sdp := Filtered(response[body + 4..]);
    if end == -1 then Thrown else Sent(response[..length] + LENGTH + Decimal(|sdp|) + response[end..] + sdp)
  }

  /** In front of the blank line or behind it; never across. */
  lemma LengthIsBeforeOrBehind(response: string)
    requires Find(response, BLANK, 0) != -1 && Find(response, LENGTH, 0) != -1
    ensures WellFormed(response) || Find(response, LENGTH, 0) >= Find(response, BLANK, 0) + 4
  {
    hide At;
    var body, length := Find(response, BLANK, 0), Find(response, LENGTH, 0);
    AtBlank(response, body);
    if length <= body < length + |LENGTH| { InsideLength(response, length, body); }
    if body < length < body + 4 {
      InsideLength(response, length, length);
      NotALineEnd(response, length);
    }
  }

  lemma NotALineEnd(response: string, length: nat)
    requires At(response, LENGTH, length)
    ensures response[length] == 'C'
  {
    assert response[length + 0] == LENGTH[0];
  }

  /** `snprintf` into a buffer of `capacity` bytes: what does not fit in front of the terminator is lost. */
  function Cut(text: string, capacity: nat): string
    requires capacity > 0
  {
    if |text| < capacity then text else text[..capacity - 1]
  }

  /** What the new text comes to, when there is one. */
  function Replaced(response: string): Answered
    requires Find(response, BLANK, 0) != -1 && Find(response, LENGTH, 0) != -1
  {
    if WellFormed(response) then Sent(Rewritten(response)) else Misplaced(response)
  }

  /**
   * A response by its parts: its first Content-Length stands in front of its
   * first blank line, the number ends its line, and the description follows.
   * The rewritten one is made of the same parts around the new number and the
   * filtered description.
   */
  lemma AResponseByItsParts(head: string, number: string, more: string, sdp: string)
    requires var r := head + "Content-Length: " + number + more + "\r\n\r\n" + sdp;
             && (forall k :: 0 <= k < |head| ==> !At(r, "Content-Length: ", k))
             && (forall k :: 0 <= k < |head| + 16 + |number| + |more| ==> !At(r, "\r\n\r\n", k))
    requires (forall i :: 0 <= i < |number| ==> number[i] != '\r') && (more == "" || (|more| >= 2 && more[..2] == "\r\n"))
    ensures var r := head + "Content-Length: " + number + more + "\r\n\r\n" + sdp;
            && Find(r, BLANK, 0) != -1 && Find(r, LENGTH, 0) != -1
            && Replaced(r) == Sent(head + "Content-Length: " + Decimal(|Filtered(sdp)|) + more + "\r\n\r\n" + Filtered(sdp))
  {
    hide At, Find, Filtered, Decimal;
    var r := head + "Content-Length: " + number + more + "\r\n\r\n" + sdp;
    FoundInParts(head, "Content-Length: ", number, more, "\r\n\r\n", sdp, r);
    NumberLine(head, number, more, sdp, r);
    FindIs(r, CRLF, |head|, |head| + 16 + |number|);
    SlicesOfParts(head, "Content-Length: ", number, more, "\r\n\r\n", sdp, r);
    AroundTheNumber(head, "Content-Length: ", Decimal(|Filtered(sdp)|), more, "\r\n\r\n", Filtered(sdp));
  }

  lemma AroundTheNumber(head: string, field: string, number: string, more: string, blank: string, sdp: string)
    ensures head + field + number + (more + blank) + sdp == head + field + number + more + blank + sdp
  {
    assert head + field + number + (more + blank) == head + field + number + more + blank;
  }

  lemma FourBehind(a: string, b: string, c: string, d: string, e: string)
    ensures a + b + c + d + e == a + (b + c + d + e)
  {
    assert a + b + c == a + (b + c);
    assert a + (b + c) + d == a + (b + c + d);
  }

  lemma FirstAt(front: string, pat: string, back: string, s: string)
    requires s == front + pat + back && forall k :: 0 <= k < |front| ==> !At(s, pat, k)
    ensures Find(s, pat, 0) == |front|
  {
    AtPart(front, pat, back, s);
    FindIs(s, pat, 0, |front|);
  }

  /** Where the searches for the field and for the blank line end. */
  lemma FoundInParts(head: string, field: string, number: string, more: string, blank: string, sdp: string, r: string)
    requires r == head + field + number + more + blank + sdp
    requires forall k :: 0 <= k < |head| ==> !At(r, field, k)
    requires forall k :: 0 <= k < |head| + |field| + |number| + |more| ==> !At(r, blank, k)
    ensures Find(r, field, 0) == |head| && Find(r, blank, 0) == |head| + |field| + |number| + |more|
  {
    hide At, Find;
    FourBehind(head + field, number, more, blank, sdp);
    FirstAt(head, field, number + more + blank + sdp, r);
    FirstAt(head + field + number + more, blank, sdp, r);
  }

  lemma SlicesOfParts(head: string, field: string, number: string, more: string, blank: string, sdp: string, r: string)
    requires r == head + field + number + more + blank + sdp
    ensures var end := |head| + |field| + |number|;
            var after := end + |more| + |blank|;
            r[..|head|] == head && r[end..after] == more + blank && r[after..] == sdp
  {
    var front, back := head + field + number, more + blank;
    assert r == front + back + sdp;
    assert r[..|front|] == front;
  }

  lemma AtPart(front: string, pat: string, back: string, s: string)
    requires s == front + pat + back
    ensures At(s, pat, |front|)
  {
  }

  lemma NumberLine(head: string, number: string, more: string, sdp: string, r: string)
    requires r == head + "Content-Length: " + number + more + "\r\n\r\n" + sdp
    requires (forall i :: 0 <= i < |number| ==> number[i] != '\r') && (more == "" || (|more| >= 2 && more[..2] == "\r\n"))
    ensures var end := |head| + 16 + |number|;
            At(r, CRLF, end) && forall k :: |head| <= k < end ==> !At(r, CRLF, k)
  {
    hide At;
    var end := |head| + 16 + |number|;
    var back := more + "\r\n\r\n";
    assert back[0] == '\r' && back[1] == '\n';
    assert r[end] == back[0] && r[end + 1] == back[1];
    AtCrlf(r, end);
    FourBehind(head + "Content-Length: ", number, more, "\r\n\r\n", sdp);
    AtPart(head, LENGTH, number + more + "\r\n\r\n" + sdp, r);
    forall k | |head| <= k < end ensures !At(r, CRLF, k) {
      AtCrlf(r, k);
      if k < |head| + 16 { InsideLength(r, |head|, k); } else { assert r[k] == number[k - |head| - 16]; }
    }
  }

  /**
   * `handleCmd_DESCRIBE_afterLookup` after the base class has left its response,
   * a terminated string, in the buffer.
   */
  method Answer(response: string, wantBackchannel: bool, capacity: nat) returns (r: Answered)
    requires |response| < capacity
    ensures r ==
            if wantBackchannel || Find(response, BLANK, 0) == -1 || Find(response, LENGTH, 0) == -1 then Sent(response)
            else if Replaced(response).Sent? then Sent(Cut(Replaced(response).text, capacity)) else Thrown
  {
    hide At, Find, Filtered, Decimal;
    if wantBackchannel { return Sent(response); }
    var body := Find(response, BLANK, 0);
    if body == -1 { return Sent(response); }
    AtBlank(response, body);
    var sdp := Filter(response[body + 4..]);
    var length := Find(response, LENGTH, 0);
    if length == -1 { return Sent(response); }
    LengthIsBeforeOrBehind(response);
    if WellFormed(response) { LengthLine(response); }
    var end := Find(response, CRLF, length);
    if end == -1 { return Thrown; }
    EndIsBehind(response, length);
    // The count body + 4 - end wraps round, and takes everything, when the line ends in the body.
    var rest := if end <= body + 4 then response[end..body + 4] else response[end..];
    var text := response[..length] + LENGTH + Decimal(|sdp|) + rest + sdp;
    return Sent(if |text| < capacity then text else text[..capacity - 1]);
  }

  lemma EndIsBehind(response: string, length: nat)
    requires At(response, LENGTH, length)
    ensures Find(response, CRLF, length) == -1 || length + |LENGTH| <= Find(response, CRLF, length) <= |response|
  {
    hide At;
    var end := Find(response, CRLF, length);
    AtCrlf(response, end);
    if length <= end < length + |LENGTH| { InsideLength(response, length, end); }
  }

  // ----- the rewritten response, read again -----

  /** The parts of a rewritten response, letter by letter. */
  ghost predicate Parts(response: string, length: nat, end: nat, body: nat, d: string, sdp: string, out: string) {
    && length + |LENGTH| <= end <= body && body + 4 <= |response|
    && |out| == length + |LENGTH| + |d| + (body + 4 - end) + |sdp|
    && (forall j :: 0 <= j < length + |LENGTH| ==> out[j] == response[j])
    && (forall j :: 0 <= j < |d| ==> out[length + |LENGTH| + j] == d[j])
    && (forall j :: end <= j < body + 4 ==> out[length + |LENGTH| + |d| + (j - end)] == response[j])
    && out[length + |LENGTH| + |d| + (body + 4 - end)..] == sdp
  }

  lemma RewrittenParts(response: string)
    requires WellFormed(response)
    ensures Parts(response, Find(response, LENGTH, 0), LineEnd(response), Find(response, BLANK, 0),
                  Decimal(|Filtered(Body(response))|), Filtered(Body(response)), Rewritten(response))
  {
    hide Find, Filtered, Decimal;
    var body, length, end := Find(response, BLANK, 0), Find(response, LENGTH, 0), LineEnd(response);
    AtBlank(response, body);
    var sdp := Filtered(response[body + 4..]);
    var d := Decimal(|sdp|);
    var out := Rewritten(response);
    assert response[..length] + LENGTH == response[..length + |LENGTH|];
    PartsOf(response, length, end, body, d, sdp);
  }

  lemma PartsOf(response: string, length: nat, end: nat, body: nat, d: string, sdp: string)
    requires length + |LENGTH| <= end <= body && body + 4 <= |response|
    ensures Parts(response, length, end, body, d, sdp,
                  response[..length + |LENGTH|] + d + response[end..body + 4] + sdp)
  {
    var front, behind := response[..length + |LENGTH|], response[end..body + 4];
    var out := front + d + behind + sdp;
    assert out[|front + d + behind|..] == sdp;
    forall j | end <= j < body + 4 ensures out[|front| + |d| + (j - end)] == response[j] {
      assert behind[j - end] == response[j];
    }
  }

  lemma LengthStaysPut(response: string, length: nat, end: nat, body: nat, d: string, sdp: string, out: string)
    requires Parts(response, length, end, body, d, sdp, out) && Find(response, LENGTH, 0) == length
    ensures Find(out, LENGTH, 0) == length
  {
    var n := length + |LENGTH|;
    assert out[..n] == response[..n];
    assert out == out[..n] + out[n..] && response == response[..n] + response[n..];
    forall j | 0 <= j <= length ensures At(out, LENGTH, j) <==> At(response, LENGTH, j) {
      AtLeft(out[..n], out[n..], LENGTH, j);
      AtLeft(response[..n], response[n..], LENGTH, j);
    }
    FindIs(out, LENGTH, 0, length);
  }

  lemma LineEndsAfterDigits(response: string, length: nat, end: nat, body: nat, d: string, sdp: string, out: string)
    requires Parts(response, length, end, body, d, sdp, out)
    requires At(response, CRLF, end) && forall i :: 0 <= i < |d| ==> IsDigit(d[i])
    ensures Find(out, CRLF, length + |LENGTH|) == length + |LENGTH| + |d|
    ensures out[length + |LENGTH|..length + |LENGTH| + |d|] == d
  {
    hide At;
    var n := length + |LENGTH|;
    AtCrlf(response, end);
    assert out[n + |d| + (end - end)] == response[end];
    assert out[n + |d| + (end + 1 - end)] == response[end + 1];
    AtCrlf(out, n + |d|);
    forall j | n <= j < n + |d| ensures !At(out, CRLF, j) {
      AtCrlf(out, j);
      assert out[n + (j - n)] == d[j - n];
    }
    FindIs(out, CRLF, n, n + |d|);
  }

  /** Where no blank line is in the response, none is in front of its place in the rewritten one. */
  lemma NoEarlierBlankLine(response: string, length: nat, end: nat, body: nat, d: string, sdp: string, out: string, j: nat)
    requires Parts(response, length, end, body, d, sdp, out)
    requires At(response, LENGTH, length) && forall k :: 0 <= k < body ==> !At(response, BLANK, k)
    requires forall i :: 0 <= i < |d| ==> IsDigit(d[i])
    requires j < length + |LENGTH| + |d| + (body - end)
    ensures !At(out, BLANK, j)
  {
    hide At, Parts;
    var n, s := length + |LENGTH|, length + |LENGTH| + |d|;
    AtBlank(out, j);
    PartsInOrder(response, length, end, body, d, sdp, out);
    if j + 4 <= n {
      PartsInFront(response, length, end, body, d, sdp, out, j);
      AtBlank(response, j);
    } else if j < n {
      PartsInFront(response, length, end, body, d, sdp, out, n - 4);
      InsideLength(response, length, j);
    } else if j < s {
      DigitOfParts(response, length, end, body, d, sdp, out, j - n);
    } else {
      PartsBehind(response, length, end, body, d, sdp, out, j - s + end);
      AtBlank(response, j - s + end);
    }
  }

  lemma PartsInOrder(response: string, length: nat, end: nat, body: nat, d: string, sdp: string, out: string)
    requires Parts(response, length, end, body, d, sdp, out)
    ensures length + |LENGTH| <= end <= body && body + 4 <= |response|
    ensures |out| == length + |LENGTH| + |d| + (body + 4 - end) + |sdp|
    ensures out[length + |LENGTH| + |d| + (body + 4 - end)..] == sdp
  {
  }

  /** Four letters in front of the number. */
  lemma PartsInFront(response: string, length: nat, end: nat, body: nat, d: string, sdp: string, out: string, j: nat)
    requires Parts(response, length, end, body, d, sdp, out) && j + 4 <= length + |LENGTH|
    ensures j + 4 <= |out| && j + 4 <= |response|
    ensures forall k :: j <= k < j + 4 ==> out[k] == response[k]
  {
  }

  lemma DigitOfParts(response: string, length: nat, end: nat, body: nat, d: string, sdp: string, out: string, k: nat)
    requires Parts(response, length, end, body, d, sdp, out) && k < |d| && IsDigit(d[k])
    ensures length + |LENGTH| + k < |out| && out[length + |LENGTH| + k] != '\r'
  {
  }

  /** Four letters between the number and the body. */
  lemma PartsBehind(response: string, length: nat, end: nat, body: nat, d: string, sdp: string, out: string, i: nat)
    requires Parts(response, length, end, body, d, sdp, out) && end <= i <= body
    ensures var p := length + |LENGTH| + |d| + (i - end);
            && p + 4 <= |out| && i + 4 <= |response|
            && out[p] == response[i] && out[p + 1] == response[i + 1]
            && out[p + 2] == response[i + 2] && out[p + 3] == response[i + 3]
  {
    var s := length + |LENGTH| + |d|;
    assert out[s + (i - end)] == response[i] && out[s + (i + 1 - end)] == response[i + 1];
    assert out[s + (i + 2 - end)] == response[i + 2] && out[s + (i + 3 - end)] == response[i + 3];
  }

  lemma BlankLineMoves(response: string, length: nat, end: nat, body: nat, d: string, sdp: string, out: string)
    requires Parts(response, length, end, body, d, sdp, out)
    requires Find(response, BLANK, 0) == body && At(response, LENGTH, length)
    requires forall i :: 0 <= i < |d| ==> IsDigit(d[i])
    ensures Find(out, BLANK, 0) == length + |LENGTH| + |d| + (body - end)
  {
    hide At, Parts;
    var p := length + |LENGTH| + |d| + (body - end);
    PartsInOrder(response, length, end, body, d, sdp, out);
    AtBlank(response, body);
    PartsBehind(response, length, end, body, d, sdp, out, body);
    AtBlank(out, p);
    forall j | 0 <= j < p ensures !At(out, BLANK, j) {
      NoEarlierBlankLine(response, length, end, body, d, sdp, out, j);
    }
    FindIs(out, BLANK, 0, p);
  }

  /** A client reads the filtered description and a length that is the description's own. */
  lemma DeclaredLengthIsTheBodys(response: string)
    requires WellFormed(response)
    ensures var out := Rewritten(response);
            && WellFormed(out)
            && Body(out) == Filtered(Body(response))
            && Declared(out) == Decimal(|Body(out)|) && Value(Declared(out)) == |Body(out)|
  {
    hide At, Find, Filtered, Decimal, Rewritten, LineEnd, Value, Parts;
    var body, length, end := Find(response, BLANK, 0), Find(response, LENGTH, 0), LineEnd(response);
    var sdp := Filtered(Body(response));
    var d, out := Decimal(|sdp|), Rewritten(response);
    RewrittenParts(response);
    LengthStaysPut(response, length, end, body, d, sdp, out);
    LineEndIsCrlf(response);
    LineEndsAfterDigits(response, length, end, body, d, sdp, out);
    BlankLineMoves(response, length, end, body, d, sdp, out);
    PartsInOrder(response, length, end, body, d, sdp, out);
    ValueOfDecimal(|sdp|);
  }

  lemma LineEndIsCrlf(response: string)
    requires WellFormed(response)
    ensures At(response, CRLF, LineEnd(response))
  {
  }

  /** Nothing but the number changes in the header. */
  lemma HeaderStaysButTheNumber(response: string)
    requires WellFormed(response)
    ensures var out, length, end := Rewritten(response), Find(response, LENGTH, 0), LineEnd(response);
            var body, after := Find(response, BLANK, 0), length + |LENGTH| + |Declared(out)|;
            && |out| == after + (body + 4 - end) + |Body(out)|
            && out[..length + |LENGTH|] == response[..length + |LENGTH|]
            && out[after..after + (body + 4 - end)] == response[end..body + 4]
  {
    hide At, Find, Filtered, Decimal, Rewritten, LineEnd, Value, Declared, Body, Parts;
    RewrittenParts(response);
    DeclaredLengthIsTheBodys(response);
    HeaderParts(response, Find(response, LENGTH, 0), LineEnd(response), Find(response, BLANK, 0),
                Declared(Rewritten(response)), Body(Rewritten(response)), Rewritten(response));
  }

  lemma HeaderParts(response: string, length: nat, end: nat, body: nat, d: string, sdp: string, out: string)
    requires Parts(response, length, end, body, d, sdp, out)
    ensures var after := length + |LENGTH| + |d|;
            && length + |LENGTH| <= end <= body && body + 4 <= |response|
            && |out| == after + (body + 4 - end) + |sdp|
            && out[..length + |LENGTH|] == response[..length + |LENGTH|]
            && out[after..after + (body + 4 - end)] == response[end..body + 4]
  {
    var after := length + |LENGTH| + |d|;
    var a, b := out[after..after + (body + 4 - end)], response[end..body + 4];
    forall i | 0 <= i < |a| ensures a[i] == b[i] {
      assert out[after + (end + i - end)] == response[end + i];
    }
  }

  // ----- room in the buffer -----

  lemma {:induction false} KeptIsShorter(ts: seq<string>)
    ensures |Join(Kept(ts))| <= |Join(ts)|
  {
    if ts != [] {
      KeptIsShorter(ts[1..]);
      var ks := Kept(ts[1..]);
      if Reverse(ts[0]) {
        assert Kept(ts) == ks;
      } else {
        assert Kept(ts) == [ts[0]] + ks && ([ts[0]] + ks)[1..] == ks;
      }
    }
  }

  lemma FilteredIsShorter(sdp: string)
    ensures |Filtered(sdp)| <= |sdp|
  {
    var k := Find(sdp, MEDIA, 0);
    if k != -1 {
      AtMedia(sdp, k);
      SectionsAreWellCut(sdp[k..]);
      KeptIsShorter(Sections(sdp[k..]));
    }
  }

  lemma DeclaredSpan(response: string)
    requires WellFormed(response)
    ensures |Declared(response)| == LineEnd(response) - (Find(response, LENGTH, 0) + |LENGTH|)
    ensures |response| == Find(response, BLANK, 0) + 4 + |Body(response)|
  {
    hide At;
    AtBlank(response, Find(response, BLANK, 0));
    var length, end := Find(response, LENGTH, 0), LineEnd(response);
    AtCrlf(response, end);
    FindIs(response, CRLF, length + |LENGTH|, end);
  }

  /** A response whose length was right fits the buffer it came in: the rewritten one is no longer. */
  lemma RewritingNeedsNoMoreRoom(response: string)
    requires WellFormed(response) && Declared(response) == Decimal(|Body(response)|)
    ensures |Rewritten(response)| <= |response|
  {
    hide At, Find, Filtered, Decimal, Rewritten, LineEnd, Value, Declared, Body;
    HeaderStaysButTheNumber(response);
    DeclaredLengthIsTheBodys(response);
    DeclaredSpan(response);
    FilteredIsShorter(Body(response));
    SmallerIsNoLonger(|Filtered(Body(response))|, |Body(response)|);
  }

  /** What the rewriting adds and takes away. */
  lemma RewrittenLength(response: string)
    requires WellFormed(response)
    ensures var sdp := Filtered(Body(response));
            |Rewritten(response)| == |response| - |Declared(response)| - |Body(response)| + |Decimal(|sdp|)| + |sdp|
  {
    hide At, Find, Filtered, Decimal, Rewritten, LineEnd, Value, Declared, Body;
    HeaderStaysButTheNumber(response);
    DeclaredLengthIsTheBodys(response);
    DeclaredSpan(response);
  }

  /**
   * The rewritten response is sent whole if and only if the number it gains fits
   * into the number and the media it loses and the room that was left.
   */
  lemma SentWholeExactlyWhen(response: string, capacity: nat)
    requires WellFormed(response) && |response| < capacity
    ensures var sdp := Filtered(Body(response));
            Cut(Rewritten(response), capacity) == Rewritten(response)
            <==> |Decimal(|sdp|)| < |Declared(response)| + (|Body(response)| - |sdp|) + (capacity - |response|)
    ensures Declared(response) == Decimal(|Body(response)|) ==> Cut(Rewritten(response), capacity) == Rewritten(response)
  {
    hide At, Find, Filtered, Decimal, Rewritten, LineEnd, Value, Declared, Body;
    RewrittenLength(response);
    if Declared(response) == Decimal(|Body(response)|) { RewritingNeedsNoMoreRoom(response); }
  }

  // ----- exactly when the client gets the filtered description -----

  /** A misplaced length leaves the whole old body in front of its number. */
  lemma MisplacedKeepsTheBody(response: string)
    requires Find(response, BLANK, 0) != -1 && Find(response, LENGTH, 0) != -1 && !WellFormed(response)
    requires Misplaced(response).Sent?
    ensures |Body(Misplaced(response).text)| > |Filtered(Body(response))|
  {
    hide At, Filtered, Decimal;
    LengthIsBeforeOrBehind(response);
    var body, length := Find(response, BLANK, 0), Find(response, LENGTH, 0);
    AtBlank(response, body);
    var out := Misplaced(response).text;
    var head := response[..length];
    assert out == head + out[length..] && response == head + response[length..];
    forall j | 0 <= j <= body ensures At(out, BLANK, j) <==> At(response, BLANK, j) {
      AtLeft(head, out[length..], BLANK, j);
      AtLeft(head, response[length..], BLANK, j);
    }
    FindIs(out, BLANK, 0, body);
  }

  /** The client is sent the filtered description as the body exactly when the length stands in front of the blank line. */
  lemma FilteredExactlyWhenTheLengthIsInTheHeader(response: string)
    requires Find(response, BLANK, 0) != -1 && Find(response, LENGTH, 0) != -1
    ensures var r := Replaced(response);
            r.Sent? && Body(r.text) == Filtered(Body(response)) <==> WellFormed(response)
  {
    hide At, Find, Filtered, Decimal, Rewritten, Misplaced, LineEnd, Value, Declared, Body;
    if WellFormed(response) {
      DeclaredLengthIsTheBodys(response);
    } else if Misplaced(response).Sent? {
      MisplacedKeepsTheBody(response);
    }
  }
}
