/**
 * Newline framing on the wire. The writers send each message followed by one
 * '\n'; the client reads with `bufio.Reader.ReadString('\n')` and the relay
 * with a `bufio.Scanner` using `bufio.ScanLines`.
 */
module Lines {

  import opened Wrappers

  /** The framing both writers use: the message and one '\n'. */
  function Frame(m: string): (line: string)
    ensures |line| == |m| + 1 && line[..|m|] == m && line[|m|] == '\n'
  {
    m + "\n"
  }

  /** The bytes a writer sends for a sequence of messages, one frame after another. */
  function Join(msgs: seq<string>): string
  {
    if msgs == [] then "" else Frame(msgs[0]) + Join(msgs[1..])
  }

  /** Prepending one message prepends one frame. */
  lemma JoinCons(m: string, msgs: seq<string>)
    ensures Join([m] + msgs) == Frame(m) + Join(msgs)
  {
    assert ([m] + msgs)[1..] == msgs;
  }

  /** A single message is written as its frame. */
  lemma JoinOne(m: string)
    ensures Join([m]) == Frame(m)
  {
    JoinCons(m, []);
    assert [m] + [] == [m];
    assert Frame(m) + "" == Frame(m);
  }

  /** Writing two runs of messages one after the other writes their frames one after the other. */
  lemma {:induction false} JoinAppend(a: seq<string>, b: seq<string>)
    ensures Join(a + b) == Join(a) + Join(b)
    decreases |a|
  {
    if a == [] {
      assert a + b == b;
    } else {
      assert (a + b)[1..] == a[1..] + b;
      JoinAppend(a[1..], b);
    }
  }

  /** Appending one message appends one frame. */
  lemma {:induction false} JoinSnoc(msgs: seq<string>, m: string)
    ensures Join(msgs + [m]) == Join(msgs) + Frame(m)
  {
    if msgs != [] {
      assert (msgs + [m])[1..] == msgs[1..] + [m];
      JoinSnoc(msgs[1..], m);
    }
  }

  /**
   * `ReadString('\n')`: the text up to and including the first '\n', and what
   * follows it; None (the reader reports an error) when no '\n' is left.
   */
  function NextLine(s: string): (r: Option<(string, string)>)
    ensures r.None? <==> '\n' !in s
    ensures r.Some? ==> var (line, rest) := r.value;
      line + rest == s && |line| > 0 && line[|line| - 1] == '\n' && '\n' !in line[..|line| - 1]
    decreases |s|
  {
    if s == [] then None
    else if s[0] == '\n' then Some(([s[0]], s[1..]))
    else match NextLine(s[1..])
      case None => None
      case Some((line, rest)) =>
        assert ([s[0]] + line)[..|line|] == [s[0]] + line[..|line| - 1];
        Some(([s[0]] + line, rest))
  }

  /** The first line of a framed message followed by anything is that frame. */
  lemma {:induction false} NextLineOfFrame(m: string, rest: string)
    requires '\n' !in m
    ensures NextLine(Frame(m) + rest) == Some((Frame(m), rest))
    decreases |m|
  {
    var s := Frame(m) + rest;
    if m == [] {
      assert s[0] == '\n' && s[1..] == rest && [s[0]] == Frame(m);
    } else {
      assert s[0] == m[0] && s[0] != '\n';
      assert s[1..] == Frame(m[1..]) + rest;
      NextLineOfFrame(m[1..], rest);
      assert [s[0]] + Frame(m[1..]) == Frame(m);
    }
  }

  /** `dropCR` of `bufio.ScanLines`: a final '\r' is removed from a token. */
  function DropCR(s: string): (r: string)
    ensures r == s || (s == r + "\r")
    ensures s != [] && s[|s| - 1] == '\r' ==> s == r + "\r"
  {
    if s != [] && s[|s| - 1] == '\r' then s[..|s| - 1] else s
  }

  /**
   * The tokens a `bufio.Scanner` with `ScanLines` yields for the stream `s`:
   * each line without its '\n' (and without a '\r' before it), then the
   * unterminated remainder if it is not empty.
   */
  function ScanLines(s: string): seq<string>
    decreases |s|
  {
    match NextLine(s)
    case Some((line, rest)) => [DropCR(line[..|line| - 1])] + ScanLines(rest)
    case None => if s == [] then [] else [DropCR(s)]
  }

  /** A message that survives framing and scanning unchanged. */
  predicate Transparent(m: string)
  {
    '\n' !in m && (m == [] || m[|m| - 1] != '\r')
  }

  /** Scanning what a writer sent for newline-free messages yields those messages. */
  lemma {:induction false} ScanLinesJoin(msgs: seq<string>)
    requires forall k :: 0 <= k < |msgs| ==> Transparent(msgs[k])
    ensures ScanLines(Join(msgs)) == msgs
  {
    if msgs != [] {
      var m := msgs[0];
      assert Transparent(m);
      NextLineOfFrame(m, Join(msgs[1..]));
      assert Frame(m)[..|Frame(m)| - 1] == m;
      ScanLinesJoin(msgs[1..]);
      assert msgs == [m] + msgs[1..];
    }
  }
}
