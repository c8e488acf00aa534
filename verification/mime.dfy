/** `buildMimeMessage` of services/gmail.ts: an Internet Message Format
    text (section 2.1 of RFC 5322) made of five header lines, an empty
    line and the body, joined by CRLF. Header values are inserted as they
    are, without folding or escaping. A reader's split at the first empty
    line is given as its partner. */
module Mime {
  import opened Common
  import opened Text

  const CRLF := "\r\n"
  /** A line break followed by an empty line: the end of the header. */
  const BLANK := "\r\n\r\n"

  function HeaderLines(from: string, to: string, subject: string): seq<string> {
    ["From: " + from,
     "To: " + to,
     "Subject: " + subject,
     "MIME-Version: 1.0",
     "Content-Type: text/plain; charset=UTF-8"]
  }

  function BuildMimeMessage(from: string, to: string, subject: string, body: string): string {
    Join(HeaderLines(from, to, subject) + ["", body], CRLF)
  }

  /** A reader's view of a message: the header lines before the first
      empty line, and everything after it as the body. */
  function Parse(msg: string): Option<(seq<string>, string)> {
    match IndexOf(msg, BLANK, 0)
    case None => None
    case Some(k) => Some((SplitOn(msg[..k], CRLF), msg[k + |BLANK|..]))
  }

  /** A line that holds no carriage return. */
  predicate NoCr(line: string) {
    '\r' !in line
  }

  /** The message is the header block, the empty line, then the body
      verbatim. */
  lemma {:induction false} MessageLayout(from: string, to: string, subject: string, body: string)
    ensures BuildMimeMessage(from, to, subject, body)
         == Join(HeaderLines(from, to, subject), CRLF) + BLANK + body
  {
    var h := HeaderLines(from, to, subject);
    JoinAppend(h, ["", body], CRLF);
    assert ["", body][1..] == [body];
    assert Join(["", body], CRLF) == "" + CRLF + body;
  }

  /** A text without carriage returns holds no CRLF. */
  lemma NoCrlfIn(line: string)
    requires NoCr(line)
    ensures forall k: nat :: !StartsAt(line, CRLF, k)
  {
    forall k: nat
      ensures !StartsAt(line, CRLF, k)
    {
      if k + 2 <= |line| {
        assert line[k] in line;
        assert line[k..k + 2][0] == line[k];
      }
    }
  }

  lemma JoinHead(lines: seq<string>, sep: string)
    requires |lines| >= 1 && |lines[0]| > 0
    ensures |Join(lines, sep)| > 0 && Join(lines, sep)[0] == lines[0][0]
  {
  }

  /** Joining non-empty lines without carriage returns creates no empty
      line: no CRLF CRLF starts inside the joined text. */
  lemma {:induction false} NoBlankInside(lines: seq<string>, tail: string, k: nat)
    requires |lines| >= 1
    requires forall i :: 0 <= i < |lines| ==> |lines[i]| > 0 && NoCr(lines[i])
    requires k < |Join(lines, CRLF)|
    ensures !StartsAt(Join(lines, CRLF) + tail, BLANK, k)
    decreases |lines|
  {
    var msg := Join(lines, CRLF) + tail;
    var l0 := lines[0];
    if k < |l0| {
      assert msg[k] == l0[k];
      assert l0[k] in l0;
      if k + 4 <= |msg| {
        assert msg[k..k + 4][0] == msg[k];
      }
    } else {
      var rest := lines[1..];
      JoinCons(l0, rest, CRLF);
      assert [l0] + rest == lines;
      var after := Join(rest, CRLF) + tail;
      assert msg == l0 + CRLF + after;
      if k == |l0| {
        JoinHead(rest, CRLF);
        assert msg[k + 2] == rest[0][0];
        assert rest[0][0] in rest[0];
        if k + 4 <= |msg| {
          assert msg[k..k + 4][2] == msg[k + 2];
        }
      } else if k == |l0| + 1 {
        if k + 4 <= |msg| {
          assert msg[k..k + 4][0] == msg[k];
        }
      } else {
        NoBlankInside(rest, tail, k - |l0| - 2);
        assert msg[|l0| + 2..] == after;
        StartsAtSuffix(msg, |l0| + 2, BLANK, k - |l0| - 2);
      }
    }
  }

  /** The first occurrence is where no earlier one is. */
  lemma IndexOfIs(s: string, pat: string, i: nat, j: nat)
    requires i <= j && StartsAt(s, pat, j)
    requires forall k: nat :: i <= k < j ==> !StartsAt(s, pat, k)
    ensures IndexOf(s, pat, i) == Some(j)
  {
    IndexOfAtMost(s, pat, i, j);
  }

  /** Splitting CR-free lines joined by CRLF gives the lines back. */
  lemma {:induction false} SplitJoinLines(lines: seq<string>)
    requires |lines| >= 1
    requires forall i :: 0 <= i < |lines| ==> NoCr(lines[i])
    ensures SplitOn(Join(lines, CRLF), CRLF) == lines
    decreases |lines|
  {
    var l0 := lines[0];
    NoCrlfIn(l0);
    if |lines| == 1 {
      assert IndexOf(l0, CRLF, 0).None?;
    } else {
      var rest := lines[1..];
      JoinCons(l0, rest, CRLF);
      assert [l0] + rest == lines;
      var j := Join(lines, CRLF);
      assert j == l0 + CRLF + Join(rest, CRLF);
      forall k: nat | k < |l0|
        ensures !StartsAt(j, CRLF, k)
      {
        assert j[k] == l0[k];
        assert l0[k] in l0;
        if k + 2 <= |j| {
          assert j[k..k + 2][0] == j[k];
        }
      }
      assert j[|l0|..|l0| + 2] == CRLF;
      IndexOfIs(j, CRLF, 0, |l0|);
      assert j[..|l0|] == l0;
      assert j[|l0| + 2..] == Join(rest, CRLF);
      SplitJoinLines(rest);
    }
  }

  lemma NoCrAppend(a: string, b: string)
    requires NoCr(a) && NoCr(b)
    ensures NoCr(a + b)
  {
  }

  /** The header lines are non-empty, and free of carriage returns when
      the values put into them are. */
  lemma HeaderLinesClean(from: string, to: string, subject: string)
    requires NoCr(from) && NoCr(to) && NoCr(subject)
    ensures forall i :: 0 <= i < 5 ==> |HeaderLines(from, to, subject)[i]| > 0
    ensures forall i :: 0 <= i < 5 ==> NoCr(HeaderLines(from, to, subject)[i])
  {
    FixedTextsClean();
    NoCrAppend("From: ", from);
    NoCrAppend("To: ", to);
    NoCrAppend("Subject: ", subject);
  }

  /** The fixed parts of the header hold no carriage return. */
  lemma FixedTextsClean()
    ensures NoCr("From: ") && NoCr("To: ") && NoCr("Subject: ")
    ensures NoCr("MIME-Version: 1.0") && NoCr("Content-Type: text/plain; charset=UTF-8")
  {
    ContentTypeClean();
  }

  lemma ContentTypeClean()
    ensures NoCr("Content-Type: text/plain; charset=UTF-8")
  {
  }

  /** The header block with the subject line in the middle. */
  lemma HeaderBlockAround(from: string, to: string, subject: string)
    ensures var h := HeaderLines(from, to, subject);
      Join(h, CRLF) == (h[0] + CRLF + h[1] + CRLF) + h[2] + (CRLF + Join(h[3..], CRLF))
  {
    JoinAroundThird(HeaderLines(from, to, subject), CRLF);
  }

  /** Four or more parts joined, with the third one picked out. */
  lemma JoinAroundThird(h: seq<string>, sep: string)
    requires |h| >= 4
    ensures Join(h, sep) == (h[0] + sep + h[1] + sep) + h[2] + (sep + Join(h[3..], sep))
  {
    assert h[1..][1..] == h[2..];
    assert h[2..][1..] == h[3..];
    var j3 := Join(h[3..], sep);
    var j2 := Join(h[2..], sep);
    var j1 := Join(h[1..], sep);
    assert j2 == h[2] + sep + j3;
    assert j1 == h[1] + sep + j2;
    assert Join(h, sep) == h[0] + sep + j1;
  }

  /** The first empty line of `hb + BLANK + body` is the one after `hb`
      when `hb` is CR-free lines joined by CRLF. */
  lemma {:induction false} FirstBlankAfter(h: seq<string>, body: string)
    requires |h| >= 1
    requires forall i :: 0 <= i < |h| ==> |h[i]| > 0 && NoCr(h[i])
    ensures IndexOf(Join(h, CRLF) + BLANK + body, BLANK, 0) == Some(|Join(h, CRLF)|)
  {
    var hb := Join(h, CRLF);
    var msg := hb + BLANK + body;
    assert hb + (BLANK + body) == msg;
    forall k: nat | k < |hb|
      ensures !StartsAt(msg, BLANK, k)
    {
      NoBlankInside(h, BLANK + body, k);
    }
    assert msg[|hb|..|hb| + 4] == BLANK;
    IndexOfIs(msg, BLANK, 0, |hb|);
  }

  /** When the sender, recipient and subject hold no carriage return, a
      reader recovers exactly the five header lines and the body. */
  lemma ParseBuild(from: string, to: string, subject: string, body: string)
    requires NoCr(from) && NoCr(to) && NoCr(subject)
    ensures Parse(BuildMimeMessage(from, to, subject, body))
         == Some((HeaderLines(from, to, subject), body))
  {
    var h := HeaderLines(from, to, subject);
    var hb := Join(h, CRLF);
    var msg := hb + BLANK + body;
    MessageLayout(from, to, subject, body);
    HeaderLinesClean(from, to, subject);
    FirstBlankAfter(h, body);
    assert msg[..|hb|] == hb;
    assert msg[|hb| + 4..] == body;
    SplitJoinLines(h);
  }

  /** Header values are not escaped: a subject that holds an empty line
      ends the header early, and a reader takes part of the header as the
      start of the body. */
  lemma HeaderInjection(from: string, to: string, subject: string, body: string)
    requires Contains(subject, BLANK)
    ensures Parse(BuildMimeMessage(from, to, subject, body)).Some?
    ensures |Parse(BuildMimeMessage(from, to, subject, body)).value.1| > |body|
  {
    var msg := BuildMimeMessage(from, to, subject, body);
    var pre, post := AroundSubject(from, to, subject, body);
    var i: nat :| i <= |subject| && StartsAt(subject, BLANK, i);
    var j := |pre| + i;
    SliceOfMiddle(pre, subject, post, i, 4);
    IndexOfAtMost(msg, BLANK, 0, j);
  }

  /** The message is some text, the subject, then the rest of the header
      followed by the empty line and the body. */
  lemma AroundSubject(from: string, to: string, subject: string, body: string) returns (pre: string, post: string)
    ensures BuildMimeMessage(from, to, subject, body) == pre + subject + post
    ensures |post| >= |BLANK| + |body|
  {
    var h := HeaderLines(from, to, subject);
    var hb := Join(h, CRLF);
    MessageLayout(from, to, subject, body);
    HeaderBlockAround(from, to, subject);
    var a := h[0] + CRLF + h[1] + CRLF;
    var rest := CRLF + Join(h[3..], CRLF);
    assert hb == a + h[2] + rest;
    assert h[2] == "Subject: " + subject;
    pre := a + "Subject: ";
    post := rest + BLANK + body;
  }

  /** A slice of the middle part of a concatenation. */
  lemma SliceOfMiddle(pre: string, x: string, post: string, i: nat, n: nat)
    requires i + n <= |x|
    ensures (pre + x + post)[|pre| + i..|pre| + i + n] == x[i..i + n]
  {
    var m := pre + x + post;
    forall k | |pre| + i <= k < |pre| + i + n ensures m[k] == x[k - |pre|] { }
  }
}
