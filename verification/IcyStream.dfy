/** The ICY stream demultiplexer (rst.c), from the end of the HTTP header on. */
module IcyStream {
  import opened Memory

  /**
   * What has been demultiplexed: `metasz` and `bytec` are the fields of the receiver, `meta` the
   * metadata bytes of the unfinished block, `audio` all bytes fed to the audio source and `titles` the
   * completed metadata blocks.
   */
  datatype Demux = Demux(metasz: nat, bytec: nat, meta: seq<byte>, audio: seq<byte>, titles: seq<seq<byte>>)

  const Init := Demux(0, 0, [], [], [])

  function Step(metaint: nat, s: Demux, b: byte): Demux {
    if s.metasz > 0 then
      if s.bytec + 1 >= s.metasz then s.(metasz := 0, bytec := 0, meta := [], titles := s.titles + [s.meta + [b]])
      else s.(bytec := s.bytec + 1, meta := s.meta + [b])
    else if s.bytec < metaint then
      s.(bytec := s.bytec + 1, audio := s.audio + [b])
    else
      s.(metasz := b as int * 16, bytec := 0, meta := [])
  }

  function Run(metaint: nat, s: Demux, body: seq<byte>): Demux
    decreases |body|
  {
    if body == [] then s else Run(metaint, Step(metaint, s, body[0]), body[1..])
  }

  predicate Inv(metaint: nat, s: Demux) {
    || (s.metasz == 0 && s.bytec <= metaint && s.meta == [])
    || (s.bytec < s.metasz <= 4080 && |s.meta| == s.bytec)
  }

  /** The state of the receiver after every run. */
  lemma {:induction false} RunInv(metaint: nat, s: Demux, body: seq<byte>)
    requires Inv(metaint, s)
    ensures Inv(metaint, Run(metaint, s, body))
    decreases |body|
  {
    if body != [] {
      RunInv(metaint, Step(metaint, s, body[0]), body[1..]);
    }
  }

  lemma {:induction false} RunAppend(metaint: nat, s: Demux, a: seq<byte>, b: seq<byte>)
    ensures Run(metaint, s, a + b) == Run(metaint, Run(metaint, s, a), b)
    decreases |a|
  {
    hide Step;
    if a == [] {
      assert a + b == b;
    } else {
      assert (a + b)[0] == a[0] && (a + b)[1..] == a[1..] + b;
      RunAppend(metaint, Step(metaint, s, a[0]), a[1..], b);
    }
  }

  lemma {:induction false} RunAudio(metaint: nat, s: Demux, a: seq<byte>)
    requires s.metasz == 0 && s.bytec + |a| <= metaint
    ensures Run(metaint, s, a) == s.(bytec := s.bytec + |a|, audio := s.audio + a)
    decreases |a|
  {
    if a == [] {
      assert s.audio + a == s.audio;
    } else {
      RunAudio(metaint, Step(metaint, s, a[0]), a[1..]);
      assert s.audio + [a[0]] + a[1..] == s.audio + a;
    }
  }

  lemma {:induction false} RunMeta(metaint: nat, s: Demux, m: seq<byte>)
    requires s.metasz > 0 && m != [] && s.bytec + |m| <= s.metasz
    ensures Run(metaint, s, m) ==
            if s.bytec + |m| == s.metasz then s.(metasz := 0, bytec := 0, meta := [], titles := s.titles + [s.meta + m])
            else s.(bytec := s.bytec + |m|, meta := s.meta + m)
    decreases |m|
  {
    var s1 := Step(metaint, s, m[0]);
    assert m == [m[0]] + m[1..];
    if |m| > 1 {
      RunMeta(metaint, s1, m[1..]);
      assert s.meta + [m[0]] + m[1..] == s.meta + m;
    } else {
      assert s.meta + [m[0]] == s.meta + m;
    }
  }

  // ----- the receiver

  class Rst {
    var metaint: nat
    var metasz: nat
    var bytec: nat
    var meta: array?<byte>
    var audio: seq<byte>
    var titles: seq<seq<byte>>

    ghost predicate Valid()
      reads this, meta
    {
      if metasz == 0 then bytec <= metaint
      else bytec < metasz <= 4080 && meta != null && meta.Length == metasz + 1
    }

    ghost function State(): (s: Demux)
      requires Valid()
      reads this, meta
      ensures Inv(metaint, s)
    {
      Demux(metasz, bytec, if metasz == 0 then [] else meta[..bytec], audio, titles)
    }

    constructor (interval: nat)
      ensures Valid() && State() == Init && metaint == interval && meta == null
    {
      metaint, metasz, bytec, meta, audio, titles := interval, 0, 0, null, [], [];
    }

    /** A new connection forgets the old one; what was fed to the audio source stays fed. */
    method Reconnect()
      modifies this
      ensures Valid() && metaint == 0 && State() == Init.(audio := old(audio), titles := old(titles))
    {
      meta := null;
      metaint := 0;
      metasz := 0;
      bytec := 0;
    }

    /** The end of a header that announces `interval`; without metadata the connection is given up. */
    method StartBody(interval: nat) returns (connected: bool)
      requires Valid() && State().metasz == State().bytec == 0
      modifies this`metaint
      ensures Valid() && State() == old(State()) && metaint == interval && (connected <==> interval > 0)
    {
      metaint := interval;
      connected := metaint != 0;
    }

    /** One TCP segment. */
    method Recv(mb: Mbuf)
      requires Valid() && metaint > 0 && mb.Valid() && mb.pos <= mb.end
      modifies this, meta, mb`pos
      ensures Valid() && metaint == old(metaint) && mb.pos == mb.end
      ensures fresh(meta) || meta == old(meta)
      ensures State() == Run(metaint, old(State()), old(mb.Rest()))
    {
      ghost var s0, todo := State(), mb.Rest();
      while mb.pos < mb.end
        invariant Valid() && mb.Valid() && mb.pos <= mb.end && metaint == old(metaint)
        invariant fresh(meta) || meta == old(meta)
        invariant todo == mb.Rest()
        invariant Run(metaint, State(), todo) == Run(metaint, s0, old(mb.Rest()))
        decreases mb.end - mb.pos
      {
        if metasz > 0 {
          RecvMeta(mb);
        } else if bytec < metaint {
          RecvAudio(mb);
        } else {
          RecvLength(mb);
        }
        todo := mb.Rest();
      }
    }

    method RecvMeta(mb: Mbuf)
      requires Valid() && metasz > 0 && mb.Valid() && mb.pos < mb.end
      modifies this`metasz, this`bytec, this`titles, meta, mb`pos
      ensures Valid() && mb.Valid() && old(mb.pos) < mb.pos <= mb.end
      ensures Run(metaint, State(), mb.Rest()) == Run(metaint, old(State()), old(mb.Rest()))
    {
      hide Step, Run;
      ghost var s0, rest0 := State(), mb.Rest();
      var n := if mb.end - mb.pos < metasz - bytec then mb.end - mb.pos else metasz - bytec;
      ghost var m := rest0[..n];
      CopyMeta(mb, n);
      mb.pos := mb.pos + n;
      assert m == mb.buf[old(mb.pos)..mb.pos];
      bytec := bytec + n;
      if bytec >= metasz {
        titles := titles + [meta[..metasz]];
        metasz := 0;
        bytec := 0;
      }
      RunMeta(metaint, s0, m);
      RunAppend(metaint, s0, m, mb.Rest());
      assert mb.Rest() == rest0[n..];
      assert rest0 == m + rest0[n..];
    }

    method CopyMeta(mb: Mbuf, n: nat)
      requires Valid() && metasz > 0 && bytec + n <= metasz && mb.Valid() && mb.pos + n <= mb.end
      modifies meta
      ensures meta[..bytec + n] == old(meta[..bytec]) + mb.buf[mb.pos..mb.pos + n]
    {
      for i := 0 to n
        invariant meta[..bytec] == old(meta[..bytec])
        invariant meta[bytec..bytec + i] == mb.buf[mb.pos..mb.pos + i]
      {
        meta[bytec + i] := mb.buf[mb.pos + i];
      }
      assert meta[..bytec + n] == meta[..bytec] + meta[bytec..bytec + n];
    }

    method RecvAudio(mb: Mbuf)
      requires Valid() && metasz == 0 && bytec < metaint && mb.Valid() && mb.pos < mb.end
      modifies this`bytec, this`audio, mb`pos
      ensures Valid() && mb.Valid() && old(mb.pos) < mb.pos <= mb.end
      ensures Run(metaint, State(), mb.Rest()) == Run(metaint, old(State()), old(mb.Rest()))
    {
      ghost var s0, rest0 := State(), mb.Rest();
      var n := if mb.end - mb.pos < metaint - bytec then mb.end - mb.pos else metaint - bytec;
      ghost var a := rest0[..n];
      assert a == mb.buf[mb.pos..mb.pos + n];
      audio := audio + mb.buf[mb.pos..mb.pos + n];
      bytec := bytec + n;
      mb.pos := mb.pos + n;
      RunAudio(metaint, s0, a);
      RunAppend(metaint, s0, a, mb.Rest());
      assert mb.Rest() == rest0[n..];
      assert rest0 == a + rest0[n..];
    }

    method RecvLength(mb: Mbuf)
      requires Valid() && metasz == 0 && bytec >= metaint && mb.Valid() && mb.pos < mb.end
      modifies this`metasz, this`bytec, this`meta, mb`pos
      ensures Valid() && mb.Valid() && old(mb.pos) < mb.pos <= mb.end && fresh(meta)
      ensures Run(metaint, State(), mb.Rest()) == Run(metaint, old(State()), old(mb.Rest()))
    {
      ghost var s0, rest0 := State(), mb.Rest();
      var b := mb.ReadU8();
      metasz := b as int * 16;
      bytec := 0;
      meta := new byte[metasz + 1](_ => 0);
      assert mb.Rest() == rest0[1..] && b == rest0[0];
      assert State() == Step(metaint, s0, b);
    }
  }

  // ----- segmentation

  function RunSegments(metaint: nat, s: Demux, segments: seq<seq<byte>>): Demux
    decreases |segments|
  {
    if segments == [] then s else RunSegments(metaint, Run(metaint, s, segments[0]), segments[1..])
  }

  lemma {:induction false} SegmentationIrrelevant(metaint: nat, s: Demux, segments: seq<seq<byte>>)
    ensures RunSegments(metaint, s, segments) == Run(metaint, s, Concat(segments))
    decreases |segments|
  {
    hide Step;
    if segments != [] {
      SegmentationIrrelevant(metaint, Run(metaint, s, segments[0]), segments[1..]);
      RunAppend(metaint, s, segments[0], Concat(segments[1..]));
    }
  }

  /** The body read block by block: audio, a length in units of 16 bytes, metadata. */
  datatype Parsed = Parsed(audio: seq<byte>, titles: seq<seq<byte>>)

  function Parse(metaint: nat, body: seq<byte>): Parsed
    decreases |body|
  {
    if |body| <= metaint then Parsed(body, [])
    else
      var len := body[metaint] as int * 16;
      var next := metaint + 1 + len;
      if |body| < next then Parsed(body[..metaint], [])
      else
        var rest := Parse(metaint, body[next..]);
        Parsed(body[..metaint] + rest.audio, (if len == 0 then [] else [body[metaint + 1..next]]) + rest.titles)
  }

  lemma RunBlock(metaint: nat, s: Demux, body: seq<byte>)
    requires s.metasz == s.bytec == 0 && s.meta == []
    ensures |body| <= metaint ==> Run(metaint, s, body) == s.(bytec := |body|, audio := s.audio + body)
    ensures |body| > metaint ==>
              var s1 := s.(metasz := body[metaint] as int * 16, audio := s.audio + body[..metaint]);
              Run(metaint, s, body) == Run(metaint, s1, body[metaint + 1..])
  {
    if |body| <= metaint {
      RunAudio(metaint, s, body);
    } else {
      RunAudio(metaint, s, body[..metaint]);
      assert body == body[..metaint] + body[metaint..];
      RunAppend(metaint, s, body[..metaint], body[metaint..]);
      assert body[metaint..][1..] == body[metaint + 1..];
    }
  }

  /** The one-shot parse says what any run of the receiver has delivered. */
  lemma {:induction false} RunParses(metaint: nat, s: Demux, body: seq<byte>)
    requires s.metasz == s.bytec == 0 && s.meta == []
    ensures var r, p := Run(metaint, s, body), Parse(metaint, body);
            r.audio == s.audio + p.audio && r.titles == s.titles + p.titles
    decreases |body|
  {
    hide Step, Run, Parse;
    RunBlock(metaint, s, body);
    ParseStep(metaint, body);
    if |body| > metaint {
      var len := body[metaint] as int * 16;
      var next := metaint + 1 + len;
      var s1 := s.(metasz := len, audio := s.audio + body[..metaint]);
      var rest := body[metaint + 1..];
      if len == 0 {
        assert body[next..] == rest;
        RunParses(metaint, s1, rest);
      } else if |body| < next {
        RunPartialMeta(metaint, s1, rest);
      } else {
        RunFullMeta(metaint, s1, rest);
        assert rest[..len] == body[metaint + 1..next] && rest[len..] == body[next..];
        RunParses(metaint, s1.(metasz := 0, titles := s.titles + [rest[..len]]), rest[len..]);
      }
    }
  }

  lemma ParseStep(metaint: nat, body: seq<byte>)
    ensures |body| <= metaint ==> Parse(metaint, body) == Parsed(body, [])
    ensures |body| > metaint ==>
              var next := metaint + 1 + body[metaint] as int * 16;
              && (|body| < next ==> Parse(metaint, body) == Parsed(body[..metaint], []))
              && (next <= |body| ==>
                    var rest := Parse(metaint, body[next..]);
                    var title := body[metaint + 1..next];
                    Parse(metaint, body) == Parsed(body[..metaint] + rest.audio, (if title == [] then [] else [title]) + rest.titles))
  {
  }

  lemma RunFullMeta(metaint: nat, s: Demux, m: seq<byte>)
    requires 0 < s.metasz <= |m| && s.bytec == 0 && s.meta == []
    ensures Run(metaint, s, m) == Run(metaint, s.(metasz := 0, titles := s.titles + [m[..s.metasz]]), m[s.metasz..])
  {
    var a, b := m[..s.metasz], m[s.metasz..];
    RunMeta(metaint, s, a);
    RunAppend(metaint, s, a, b);
    hide Run;
    assert m == a + b && s.meta + a == a;
  }

  lemma RunPartialMeta(metaint: nat, s: Demux, m: seq<byte>)
    requires s.metasz > 0 && s.bytec + |m| < s.metasz
    ensures Run(metaint, s, m).audio == s.audio && Run(metaint, s, m).titles == s.titles
  {
    if m != [] {
      RunMeta(metaint, s, m);
    }
  }

  /** Whatever the segmentation, the receiver delivers what a one-shot parse of the whole body gives. */
  lemma SegmentsParse(metaint: nat, segments: seq<seq<byte>>)
    ensures var r, p := RunSegments(metaint, Init, segments), Parse(metaint, Concat(segments));
            r.audio == p.audio && r.titles == p.titles && Inv(metaint, r)
  {
    SegmentationIrrelevant(metaint, Init, segments);
    RunParses(metaint, Init, Concat(segments));
    RunInv(metaint, Init, Concat(segments));
    hide Run, Parse;
    assert [] + Parse(metaint, Concat(segments)).audio == Parse(metaint, Concat(segments)).audio;
    assert [] + Parse(metaint, Concat(segments)).titles == Parse(metaint, Concat(segments)).titles;
  }

  // ----- the server's side

  /** A full interval of audio and the metadata after it. */
  datatype Block = Block(audio: seq<byte>, title: seq<byte>)

  predicate IsBlock(metaint: nat, b: Block) {
    |b.audio| == metaint && |b.title| % 16 == 0 && |b.title| <= 4080
  }

  function Mux(metaint: nat, blocks: seq<Block>, last: seq<byte>): seq<byte>
    requires forall b <- blocks :: IsBlock(metaint, b)
  {
    if blocks == [] then last
    else
      assert IsBlock(metaint, blocks[0]);
      blocks[0].audio + [(|blocks[0].title| / 16) as byte] + blocks[0].title + Mux(metaint, blocks[1..], last)
  }

  function AudioOf(blocks: seq<Block>): seq<byte> {
    if blocks == [] then [] else blocks[0].audio + AudioOf(blocks[1..])
  }

  function TitlesOf(blocks: seq<Block>): seq<seq<byte>> {
    if blocks == [] then [] else (if blocks[0].title == [] then [] else [blocks[0].title]) + TitlesOf(blocks[1..])
  }

  /** Demultiplexing inverts multiplexing: all audio, and every title that is not empty. */
  lemma {:induction false} ParseMux(metaint: nat, blocks: seq<Block>, last: seq<byte>)
    requires |last| <= metaint && forall b <- blocks :: IsBlock(metaint, b)
    ensures Parse(metaint, Mux(metaint, blocks, last)) == Parsed(AudioOf(blocks) + last, TitlesOf(blocks))
  {
    hide Parse;
    if blocks == [] {
      assert [] + last == last;
      ParseLast(metaint, last);
    } else {
      var rest := Mux(metaint, blocks[1..], last);
      assert blocks[0] in blocks && forall b <- blocks[1..] :: b in blocks;
      ParseMux(metaint, blocks[1..], last);
      ParseBlock(metaint, blocks[0], rest);
      assert AudioOf(blocks) + last == blocks[0].audio + (AudioOf(blocks[1..]) + last);
    }
  }

  lemma ParseLast(metaint: nat, last: seq<byte>)
    requires |last| <= metaint
    ensures Parse(metaint, last) == Parsed(last, [])
  {
  }

  lemma ParseBlock(metaint: nat, b: Block, rest: seq<byte>)
    requires IsBlock(metaint, b)
    ensures var r := Parse(metaint, rest);
            Parse(metaint, b.audio + [(|b.title| / 16) as byte] + b.title + rest) ==
            Parsed(b.audio + r.audio, (if b.title == [] then [] else [b.title]) + r.titles)
  {
    var body := b.audio + [(|b.title| / 16) as byte] + b.title + rest;
    assert body[..metaint] == b.audio && body[metaint] as int * 16 == |b.title|;
    var next := metaint + 1 + |b.title|;
    assert body[metaint + 1..next] == b.title && body[next..] == rest;
  }
}
