/** Worked scenarios: a text is wrapped in a `PadString`, its content window is
    split and rejoined, and windows of two separate buffers are refused. */
module Examples {
  import opened Wrappers
  import opened Str
  import opened Pad

  /** "hello world" in UTF-8. */
  const HelloWorld: seq<byte> := [0x68, 0x65, 0x6C, 0x6C, 0x6F, 0x20, 0x77, 0x6F, 0x72, 0x6C, 0x64]

  /** "héllo" in UTF-8: "é" takes the two bytes 0xC3 0xA9 at offsets 1 and 2. */
  const HAcuteLlo: seq<byte> := [0x68, 0xC3, 0xA9, 0x6C, 0x6C, 0x6F]

  /** Splitting "hello world" at 5 gives "hello" and " world", which rejoin
      into the whole content window. */
  method SplitHelloWorld() returns (left: seq<byte>, right: seq<byte>, rejoined: bool)
    ensures left == HelloWorld[..5] && right == HelloWorld[5..]
    ensures rejoined
  {
    var p := new PadString.From(HelloWorld);
    var view := p.AsRef();
    assert IsCharBoundary(Deref(view), 5);
    var halves := Pad.SplitAt(view, 5);
    var (l, r) := halves.value;
    left, right := Deref(l), Deref(r);
    SplitJoinIdentity(view, 5);
    rejoined := JoinContig(l, r) == Some(view);
  }

  /** Offset 2 of "héllo" falls inside "é": splitting the content window there
      is refused as not being a character boundary. */
  method SplitInsideAcute() returns (outcome: Result<(PadStr, PadStr), SliceError>)
    ensures outcome == Failure(NotCharBoundary(2))
  {
    var p := new PadString.From(HAcuteLlo);
    var view := p.AsRef();
    assert IsContinuation(Deref(view)[2]);
    outcome := Pad.SplitAt(view, 2);
  }

  /** The content windows of two separately built buffers do not join. */
  method JoinAcrossBuffers() returns (joined: Option<PadStr>)
    ensures joined == None
  {
    var x := new PadString.From([0x78]);
    var y := new PadString.From([0x79]);
    joined := JoinContig(x.AsRef(), y.AsRef());
  }
}
