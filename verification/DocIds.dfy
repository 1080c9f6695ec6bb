/**
 Document ids, `host:path`. Parsing normalises the path and refuses `.` and `..`; the
 prefix test on path strings is shown to be the ancestor relation on segment lists.
 */
module DocIds {
  import opened Basics

  datatype DocId = DocId(host: string, path: string)

  // ---------------------------------------------------------------------
  // Paths and segments
  // ---------------------------------------------------------------------

  /** The pieces between slashes, empty ones included. */
  function Split(s: string): (pieces: seq<string>)
    ensures pieces != [] && forall p | p in pieces :: '/' !in p
  {
    if s == "" then [""]
    else
      var rest := Split(s[1..]);
      if s[0] == '/' then [""] + rest else [[s[0]] + rest[0]] + rest[1..]
  }

  function NonEmpty(pieces: seq<string>): (kept: seq<string>)
    ensures forall p | p in kept :: p in pieces && p != ""
  {
    if pieces == [] then []
    else if pieces[0] == "" then NonEmpty(pieces[1..])
    else [pieces[0]] + NonEmpty(pieces[1..])
  }

  function Segments(path: string): seq<string> {
    NonEmpty(Split(path))
  }

  predicate Plain(segment: string) {
    segment != "" && '/' !in segment && segment != "." && segment != ".."
  }

  predicate AllPlain(segments: seq<string>) {
    forall s | s in segments :: Plain(s)
  }

  /** The segments joined by slashes, with a slash in front. */
  function Joined(segments: seq<string>): string {
    if segments == [] then "" else "/" + segments[0] + Joined(segments[1..])
  }

  function Path(segments: seq<string>): string {
    if segments == [] then "/" else Joined(segments)
  }

  // ---------------------------------------------------------------------
  // Ids
  // ---------------------------------------------------------------------

  function IsRoot(d: DocId): bool { d.path == "/" }

  function Encoded(d: DocId): string { d.host + ":" + d.path }

  /** The position of the first colon, or the length. */
  function FirstColon(s: string): (i: nat)
    ensures i <= |s| && ':' !in s[..i] && (i < |s| ==> s[i] == ':')
  {
    if s == "" || s[0] == ':' then 0
    else
      var i := FirstColon(s[1..]);
      assert s[..i + 1] == [s[0]] + s[1..][..i];
      i + 1
  }

  /** A malformed id, or one with a `.` or `..` segment, is refused. */
  function Parse(id: string): Option<DocId> {
    var sep := FirstColon(id);
    if !(0 < sep < |id| - 1 && id[sep + 1] == '/') then None
    else
      var segments := Segments(id[sep + 1..]);
      if "." in segments || ".." in segments then None
      else Some(DocId(id[..sep], Path(segments)))
  }

  function Child(d: DocId, name: string): Option<DocId> {
    if name == "" || '/' in name || name == "." || name == ".." then None
    else Some(DocId(d.host, if IsRoot(d) then "/" + name else d.path + "/" + name))
  }

  function AfterLastSlash(s: string): (r: string)
    ensures '/' !in r
    decreases |s|
  {
    if s == "" || s[|s| - 1] == '/' then "" else AfterLastSlash(s[..|s| - 1]) + [s[|s| - 1]]
  }

  function Name(d: DocId): string {
    if IsRoot(d) then "" else AfterLastSlash(d.path)
  }

  predicate IsDescendantOf(d: DocId, ancestor: DocId) {
    && d.host == ancestor.host && d.path != ancestor.path
    && (IsRoot(ancestor) || ancestor.path + "/" <= d.path)
  }

  /** A host name without colon, and a path that is a list of plain segments. */
  predicate Canonical(d: DocId) {
    d.host != "" && ':' !in d.host && AllPlain(Segments(d.path)) && d.path == Path(Segments(d.path))
  }

  // ---------------------------------------------------------------------
  // Splitting undoes joining
  // ---------------------------------------------------------------------

  /** What follows a word ended by a slash or by the end. */
  function Following(tail: string): seq<string> {
    if tail == "" then [] else Split(tail[1..])
  }

  lemma {:induction false} SplitAtSlash(s: string, tail: string)
    requires '/' !in s && (tail == "" || tail[0] == '/')
    ensures Split(s + tail) == [s] + Following(tail)
  {
    if s == "" {
      assert s + tail == tail;
    } else {
      var word, rest := s[1..], Following(tail);
      SplitAtSlash(word, tail);
      SplitStep(s + tail, word + tail, s[0], word, rest);
      assert s == [s[0]] + word;
    }
  }

  lemma SplitStep(s: string, below: string, c: char, word: string, rest: seq<string>)
    requires c != '/' && s == [c] + below && Split(below) == [word] + rest
    ensures Split(s) == [[c] + word] + rest
  {
    assert s[1..] == below;
    assert ([word] + rest)[1..] == rest;
  }

  lemma SkipEmpty(pieces: seq<string>)
    ensures NonEmpty([""] + pieces) == NonEmpty(pieces)
  {
    assert ([""] + pieces)[1..] == pieces;
  }

  lemma SegmentsStep(s: string, tail: string)
    requires Plain(s) && (tail == "" || tail[0] == '/')
    ensures Segments("/" + s + tail) == [s] + Segments(tail)
  {
    var rest := Following(tail);
    assert ("/" + s + tail)[1..] == s + tail;
    SplitAtSlash(s, tail);
    assert Split("/" + s + tail) == [""] + ([s] + rest);
    SkipEmpty([s] + rest);
    assert ([s] + rest)[1..] == rest;
    SkipEmpty(rest);
    assert tail == "" ==> Split(tail) == [""] + rest;
  }

  lemma {:induction false} SegmentsOfJoined(segments: seq<string>)
    requires AllPlain(segments)
    ensures Segments(Joined(segments)) == segments
  {
    if segments != [] {
      SegmentsOfJoined(segments[1..]);
      SegmentsStep(segments[0], Joined(segments[1..]));
    }
  }

  /** The segments of a path made of plain segments are those segments. */
  lemma SegmentsOfPath(segments: seq<string>)
    requires AllPlain(segments)
    ensures Segments(Path(segments)) == segments
  {
    SegmentsOfJoined(segments);
    if segments == [] {
      assert Split("/") == ["", ""];
    }
  }

  lemma {:induction false} ColonSplits(host: string, path: string)
    requires ':' !in host
    ensures FirstColon(host + ":" + path) == |host|
  {
    var id := host + ":" + path;
    if host != "" {
      assert id[0] == host[0] && id[1..] == host[1..] + ":" + path;
      ColonSplits(host[1..], path);
    }
  }

  // ---------------------------------------------------------------------
  // Round trips
  // ---------------------------------------------------------------------

  /** Parsing the encoding of a canonical id gives the id back. */
  lemma ParseEncoded(d: DocId)
    requires Canonical(d)
    ensures Parse(Encoded(d)) == Some(d)
  {
    ColonSplits(d.host, d.path);
    var id := Encoded(d);
    assert id[..|d.host|] == d.host && id[|d.host| + 1..] == d.path;
    assert d.path[0] == '/';
    assert forall s | s in Segments(d.path) :: Plain(s);
  }

  /** Whatever parses is canonical, so normalising twice changes nothing. */
  lemma ParseNormalises(id: string)
    requires Parse(id).Some?
    ensures Canonical(Parse(id).value)
    ensures Parse(Encoded(Parse(id).value)) == Parse(id)
  {
    var sep := FirstColon(id);
    var segments := Segments(id[sep + 1..]);
    SegmentsOfPath(segments);
    ParseEncoded(Parse(id).value);
  }

  /** An id parses to itself exactly when it is the encoding of a canonical document id. */
  lemma ParsesToItselfExactly(d: DocId)
    ensures Parse(Encoded(d)) == Some(d) <==> Canonical(d)
  {
    if Canonical(d) {
      ParseEncoded(d);
    } else if Parse(Encoded(d)) == Some(d) {
      ParseNormalises(Encoded(d));
    }
  }

  // ---------------------------------------------------------------------
  // What parses
  // ---------------------------------------------------------------------

  lemma {:induction false} SplitConcat(a: string, b: string)
    ensures Split(a + "/" + b) == Split(a) + Split(b)
  {
    if a == "" {
      assert (a + "/" + b)[1..] == b;
      assert Split("") == [""];
    } else {
      var tail := a[1..] + "/" + b;
      SplitConcat(a[1..], b);
      assert (a + "/" + b)[1..] == tail && (a + "/" + b)[0] == a[0];
      SplitInFront(a[0], a[1..], tail, Split(b));
      assert [a[0]] + tail == a + "/" + b && [a[0]] + a[1..] == a;
    }
  }

  /** One more character in front does the same to both. */
  lemma SplitInFront(c: char, short: string, long: string, more: seq<string>)
    requires Split(long) == Split(short) + more
    ensures Split([c] + long) == Split([c] + short) + more
  {
    var pieces := Split(short);
    if c == '/' {
      SlashInFront(short);
      SlashInFront(long);
      Regroup([""], pieces, more);
    } else {
      var word, rest := pieces[0], pieces[1..];
      Regroup([word], rest, more);
      SplitStep([c] + short, short, c, word, rest);
      SplitStep([c] + long, long, c, word, rest + more);
      Regroup([[c] + word], rest, more);
    }
  }

  lemma SlashInFront(s: string)
    ensures Split(['/'] + s) == [""] + Split(s)
  {
    assert (['/'] + s)[1..] == s;
  }

  lemma Regroup(a: seq<string>, b: seq<string>, c: seq<string>)
    ensures a + (b + c) == a + b + c
  {
  }

  lemma {:induction false} NonEmptyConcat(a: seq<string>, b: seq<string>)
    ensures NonEmpty(a + b) == NonEmpty(a) + NonEmpty(b)
  {
    if a == [] {
      assert a + b == b;
    } else {
      assert (a + b)[1..] == a[1..] + b;
      NonEmptyConcat(a[1..], b);
    }
  }

  /** Slashes separate segments, however many there are, and nothing else does. */
  lemma SegmentsConcat(a: string, b: string)
    ensures Segments(a + "/" + b) == Segments(a) + Segments(b)
    ensures Segments(a + "//" + b) == Segments(a + "/" + b)
    ensures '/' !in a ==> Segments(a) == if a == "" then [] else [a]
  {
    SplitConcat(a, b);
    NonEmptyConcat(Split(a), Split(b));
    SplitConcat(a + "/", b);
    SplitConcat(a, "");
    NonEmptyConcat(Split(a), Split(""));
    NonEmptyConcat(Split(a + "/"), Split(b));
    assert a + "/" + "" == a + "/" && a + "/" + "/" + b == a + "//" + b;
    if '/' !in a {
      SplitAtSlash(a, "");
      assert a + "" == a;
    }
  }

  lemma {:induction false} NoColon(s: string)
    requires ':' !in s
    ensures FirstColon(s) == |s|
  {
    if s != "" {
      assert s[0] in s && forall c | c in s[1..] :: c in s;
      NoColon(s[1..]);
    }
  }

  /**
   An id is accepted exactly when it is a host and an absolute path, joined by the first colon, with no segment that
   is a dot or two; it then means the host and the path with its empty segments left out.
   */
  lemma ParseExactly(host: string, path: string)
    requires ':' !in host
    ensures var segments := Segments(path);
            Parse(host + ":" + path)
            == if host != "" && path != "" && path[0] == '/' && "." !in segments && ".." !in segments
               then Some(DocId(host, Path(segments))) else None
    ensures Parse(host) == None
  {
    ColonSplits(host, path);
    NoColon(host);
    var id := host + ":" + path;
    assert id[..|host|] == host && id[|host| + 1..] == path;
  }

  lemma {:induction false} JoinedAppend(a: seq<string>, b: seq<string>)
    ensures Joined(a + b) == Joined(a) + Joined(b)
  {
    if a == [] {
      assert a + b == b;
    } else {
      JoinedAppend(a[1..], b);
      assert (a + b)[1..] == a[1..] + b;
    }
  }

  lemma {:induction false} NameOfLast(prefix: string, name: string)
    requires '/' !in name
    ensures AfterLastSlash(prefix + "/" + name) == name
    decreases |name|
  {
    var s := prefix + "/" + name;
    if name == "" {
      assert s[|s| - 1] == '/';
    } else {
      var front := name[..|name| - 1];
      NameOfLast(prefix, front);
      assert s[..|s| - 1] == prefix + "/" + front;
      assert name == front + [s[|s| - 1]];
    }
  }

  /** The child's path is the path of one more segment. */
  lemma ChildPath(d: DocId, name: string)
    requires Canonical(d) && Plain(name)
    ensures var child := Child(d, name).value;
            child.path == Path(Segments(d.path) + [name]) && Segments(child.path) == Segments(d.path) + [name]
  {
    var above := Segments(d.path);
    JoinedAppend(above, [name]);
    assert Joined([name]) == "/" + name + Joined([]) == "/" + name;
    SegmentsOfPath(above);
    JoinedLength(above);
    assert Child(d, name).value.path == Joined(above + [name]);
    SegmentsOfPath(above + [name]);
  }

  /** A child of a canonical id re-parses to itself, lies one segment below its parent, and carries its name. */
  lemma ChildRoundTrip(d: DocId, name: string)
    requires Canonical(d)
    ensures Child(d, name).Some? <==> Plain(name)
    ensures Child(d, name).Some? ==>
              var child := Child(d, name).value;
              && Canonical(child) && Parse(Encoded(child)) == Some(child)
              && Segments(child.path) == Segments(d.path) + [name]
              && Name(child) == name
              && IsDescendantOf(child, d)
  {
    if Plain(name) {
      var child := Child(d, name).value;
      ChildPath(d, name);
      ParseEncoded(child);
      NameOfLast(if IsRoot(d) then "" else d.path, name);
      assert "" + "/" + name == "/" + name;
    }
  }

  /** The name of an id is the last of its segments, and that of a root is empty. */
  lemma NameIsLastSegment(d: DocId)
    requires Canonical(d)
    ensures var segments := Segments(d.path);
            Name(d) == if segments == [] then "" else segments[|segments| - 1]
  {
    var segments := Segments(d.path);
    if segments != [] {
      var front, last := segments[..|segments| - 1], segments[|segments| - 1];
      assert segments == front + [last] && last in segments;
      JoinedAppend(front, [last]);
      assert Joined([last]) == "/" + last + Joined([]) == "/" + last;
      NameOfLast(Joined(front), last);
      assert d.path == Joined(front) + "/" + last;
      JoinedLength(segments);
    }
  }

  // ---------------------------------------------------------------------
  // Descendants
  // ---------------------------------------------------------------------

  /** Two slash-free words, each ended by a slash or by the end of the text, that start the same text. */
  lemma {:induction false} SameWord(x: string, y: string, u: string, v: string)
    requires '/' !in x && '/' !in u
    requires y != "" && y[0] == '/' && (v == "" || v[0] == '/')
    requires x + y <= u + v
    ensures x == u && y <= v
  {
    assert (x + y)[0] == (u + v)[0];
    if x == "" {
      assert x + y == y;
      assert u == "";
      assert u + v == v;
    } else {
      assert x[0] in x && u != "";
      assert x + y == [x[0]] + (x[1..] + y) && u + v == [u[0]] + (u[1..] + v);
      assert x[1..] + y == (x + y)[1..] && u[1..] + v == (u + v)[1..];
      SameWord(x[1..], y, u[1..], v);
    }
  }

  lemma {:induction false} PrefixOfJoined(above: seq<string>, below: seq<string>)
    requires AllPlain(above) && AllPlain(below) && Joined(above) + "/" <= Joined(below)
    ensures above < below
  {
    if above == [] {
      assert below != [];
    } else {
      var x, y := above[0], Joined(above[1..]) + "/";
      var u, v := below[0], Joined(below[1..]);
      assert Plain(x) && Plain(u);
      assert Joined(above) + "/" == "/" + (x + y) && Joined(below) == "/" + (u + v);
      assert x + y <= u + v by {
        assert x + y == ("/" + (x + y))[1..] && u + v == ("/" + (u + v))[1..];
      }
      SameWord(x, y, u, v);
      PrefixOfJoined(above[1..], below[1..]);
      assert above == [x] + above[1..] && below == [u] + below[1..];
    }
  }

  /** The string test is the ancestor relation: same host and a strict prefix of the segments. */
  lemma DescendantIsStrictPrefix(d: DocId, ancestor: DocId)
    requires Canonical(d) && Canonical(ancestor)
    ensures IsDescendantOf(d, ancestor)
            <==> d.host == ancestor.host && Segments(ancestor.path) < Segments(d.path)
  {
    var below, above := Segments(d.path), Segments(ancestor.path);
    if above == [] {
      assert above < below <==> below != [];
      JoinedLength(below);
    } else {
      JoinedLength(above);
      JoinedLength(below);
      if ancestor.path + "/" <= d.path {
        PrefixOfJoined(above, below);
      }
      if above < below {
        var more := below[|above|..];
        assert below == above + more;
        JoinedAppend(above, more);
        assert Joined(more)[0] == '/';
      }
    }
  }

  /** A joined path of plain segments is longer than the root path. */
  lemma JoinedLength(segments: seq<string>)
    requires AllPlain(segments)
    ensures segments != [] ==> |Joined(segments)| >= 2 && Joined(segments)[0] == '/'
  {
    if segments != [] { assert Plain(segments[0]); }
  }

  /** Being below is a strict partial order on canonical ids. */
  lemma DescendantsAreOrdered(a: DocId, b: DocId, c: DocId)
    requires Canonical(a) && Canonical(b) && Canonical(c)
    ensures !IsDescendantOf(a, a)
    ensures IsDescendantOf(a, b) ==> !IsDescendantOf(b, a)
    ensures IsDescendantOf(a, b) && IsDescendantOf(b, c) ==> IsDescendantOf(a, c)
  {
    DescendantIsStrictPrefix(a, b);
    DescendantIsStrictPrefix(b, a);
    DescendantIsStrictPrefix(b, c);
    DescendantIsStrictPrefix(a, c);
  }
}
