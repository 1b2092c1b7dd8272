/** The objects of lib/http/request_parser.hpp: a request, and the parser that fills it in. */
module HttpParser {
  import opened Http
  import opened HttpLanguage

  class RequestObject {
    var method_: string
    var uri: string
    var major: nat
    var minor: nat
    var headers: seq<Header>

    constructor ()
      ensures Value() == EMPTY
    {
      method_, uri, major, minor, headers := "", "", 0, 0, [];
    }

    ghost function Value(): Request
      reads this
    {
      Request(method_, uri, major, minor, headers)
    }
  }

  class RequestParser {
    var state: State

    constructor ()
      ensures state == MethodStart
    {
      state := MethodStart;
    }

    method Reset()
      modifies this
      ensures state == MethodStart
    {
      state := MethodStart;
    }

    ghost predicate Valid(req: RequestObject)
      reads this, req
    {
      Parser(state, req.Value()).Valid()
    }

    /** The request line part of `consume`. */
    method ConsumeLine(req: RequestObject, c: char) returns (result: Result)
      requires InLine(state)
      modifies this, req
      ensures (result, Parser(state, req.Value())) == old(Step(Parser(state, req.Value()), c))
    {
      match state {
        case MethodStart =>
          if !IsTokenChar(c) { return Bad; }
          state := Method;
          req.method_ := req.method_ + [c];
        case Method =>
          if c == ' ' {
            state := Uri;
          } else if !IsTokenChar(c) {
            return Bad;
          } else {
            req.method_ := req.method_ + [c];
          }
        case Uri =>
          if c == ' ' {
            state := VersionH;
          } else if IsCtl(c) {
            return Bad;
          } else {
            req.uri := req.uri + [c];
          }
        case VersionH =>
          if c != 'H' { return Bad; }
          state := VersionT1;
        case VersionT1 =>
          if c != 'T' { return Bad; }
          state := VersionT2;
        case VersionT2 =>
          if c != 'T' { return Bad; }
          state := VersionP;
        case VersionP =>
          if c != 'P' { return Bad; }
          state := VersionSlash;
        case VersionSlash =>
          if c != '/' { return Bad; }
          req.major, req.minor := 0, 0;
          state := MajorStart;
      }
      return Indeterminate;
    }

    /** The version part of `consume`. */
    method ConsumeVersion(req: RequestObject, c: char) returns (result: Result)
      requires InVersion(state)
      modifies this, req
      ensures (result, Parser(state, req.Value())) == old(Step(Parser(state, req.Value()), c))
    {
      match state {
        case MajorStart =>
          if !IsDigit(c) { return Bad; }
          req.major := req.major * 10 + DigitOf(c);
          state := Major;
        case Major =>
          if c == '.' {
            state := MinorStart;
          } else if IsDigit(c) {
            req.major := req.major * 10 + DigitOf(c);
          } else {
            return Bad;
          }
        case MinorStart =>
          if !IsDigit(c) { return Bad; }
          req.minor := req.minor * 10 + DigitOf(c);
          state := Minor;
        case Minor =>
          if c == '\r' {
            state := Newline1;
          } else if IsDigit(c) {
            req.minor := req.minor * 10 + DigitOf(c);
          } else {
            return Bad;
          }
        case Newline1 =>
          if c != '\n' { return Bad; }
          state := HeaderLineStart;
      }
      return Indeterminate;
    }

    /** Appends to the last header; the list is never empty here. */
    method AppendToValue(req: RequestObject, c: char)
      requires req.headers != []
      modifies this, req
      ensures Parser(state, req.Value()) == old(Parser(state, req.Value()).AddToValue(c))
    {
      var n := |req.headers| - 1;
      state := HeaderValue;
      req.headers := req.headers[n := req.headers[n].(value := req.headers[n].value + [c])];
    }

    /** The header part of `consume`. */
    method ConsumeHeader(req: RequestObject, c: char) returns (result: Result)
      requires Valid(req) && !InLine(state) && !InVersion(state)
      modifies this, req
      ensures (result, Parser(state, req.Value())) == old(Step(Parser(state, req.Value()), c))
    {
      match state {
        case HeaderLineStart =>
          if c == '\r' {
            state := Newline3;
          } else if req.headers != [] && (c == ' ' || c == '\t') {
            state := HeaderLws;
          } else if !IsTokenChar(c) {
            return Bad;
          } else {
            req.headers := req.headers + [Header([c], "")];
            state := HeaderName;
          }
        case HeaderLws =>
          if c == '\r' {
            state := Newline2;
          } else if c == ' ' || c == '\t' {
          } else if IsCtl(c) {
            return Bad;
          } else {
            AppendToValue(req, c);
          }
        case HeaderName =>
          if c == ':' {
            state := SpaceBeforeValue;
          } else if !IsTokenChar(c) {
            return Bad;
          } else {
            var n := |req.headers| - 1;
            req.headers := req.headers[n := req.headers[n].(name := req.headers[n].name + [c])];
          }
        case SpaceBeforeValue =>
          if c != ' ' { return Bad; }
          state := HeaderValue;
        case HeaderValue =>
          if c == '\r' {
            state := Newline2;
          } else if IsCtl(c) {
            return Bad;
          } else {
            AppendToValue(req, c);
          }
        case Newline2 =>
          if c != '\n' { return Bad; }
          state := HeaderLineStart;
        case Newline3 =>
          return if c == '\n' then Good else Bad;
      }
      return Indeterminate;
    }

    /** The source's `consume`. */
    method Consume(req: RequestObject, c: char) returns (result: Result)
      requires Valid(req)
      modifies this, req
      ensures Valid(req)
      ensures (result, Parser(state, req.Value())) == old(Step(Parser(state, req.Value()), c))
      ensures forall past :: Goes(FRESH, past, old(Parser(state, req.Value()))) ==>
        Answers(past + [c], result, req.Value())
    {
      ghost var p := Parser(state, req.Value());
      forall past | Goes(FRESH, past, p) ensures Answers(past + [c], Step(p, c).0, Step(p, c).1.req) {
        StepExactly(past, p, c);
      }
      if InLine(state) {
        result := ConsumeLine(req, c);
      } else if InVersion(state) {
        result := ConsumeVersion(req, c);
      } else {
        result := ConsumeHeader(req, c);
      }
    }

    /** The source's `parse`: the answer and how much of the chunk was used. */
    method Parse(req: RequestObject, chunk: string) returns (result: Result, used: nat)
      requires Valid(req)
      modifies this, req
      ensures Valid(req) && used <= |chunk|
      ensures Outcome(result, Parser(state, req.Value()), chunk[used..]) == old(Run(Parser(state, req.Value()), chunk))
    {
      used := 0;
      while used < |chunk|
        invariant used <= |chunk| && Valid(req)
        invariant old(Run(Parser(state, req.Value()), chunk)) == Run(Parser(state, req.Value()), chunk[used..])
      {
        assert chunk[used..][1..] == chunk[used + 1..];
        result := Consume(req, chunk[used]);
        used := used + 1;
        if result == Good || result == Bad {
          return;
        }
      }
      result := Indeterminate;
    }
  }

  /** A server's use of the parser: chunks as they arrive, until there is an answer. */
  method Receive(chunks: seq<string>) returns (result: Result, received: RequestObject)
    ensures fresh(received) && (result, received.Value()) == ChunksRead(chunks)
    ensures Understood(Concat(chunks), result, received.Value())
  {
    ChunksMakeNoDifference(FRESH, chunks);
    UnderstoodExactly(Concat(chunks));
    received := new RequestObject();
    var parser := new RequestParser();
    result := Indeterminate;
    var i := 0;
    while i < |chunks| && result == Indeterminate
      invariant 0 <= i <= |chunks| && fresh(parser) && fresh(received) && parser.Valid(received)
      invariant RunChunks(FRESH, chunks) ==
        if result == Indeterminate then RunChunks(Parser(parser.state, received.Value()), chunks[i..])
        else (result, Parser(parser.state, received.Value()))
      decreases |chunks| - i
    {
      var used;
      assert chunks[i..][1..] == chunks[i + 1..];
      result, used := parser.Parse(received, chunks[i]);
      i := i + 1;
    }
  }

  /** The answer to the chunks and the request read from them. */
  function ChunksRead(chunks: seq<string>): (Result, Request) {
    var o := RunChunks(FRESH, chunks);
    (o.0, o.1.req)
  }

  /** A printed request arrives as it was sent. */
  method ReceiveRequest(r: Request, chunks: seq<string>) returns (result: Result, received: RequestObject)
    requires WellFormed(r) && Concat(chunks) == Print(r)
    ensures result == Good && received.Value() == r
  {
    ChunkedRoundTrip(r, chunks);
    result, received := Receive(chunks);
  }
}
