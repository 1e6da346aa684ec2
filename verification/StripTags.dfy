/** `stripTag` of pkg/cim/interleave_buffer.go: from a tag reference to its image. */
module StripTags {

  /** Go's `strings.Split(s, ":")`. */
  function Split(s: string): (parts: seq<string>)
    ensures |parts| >= 1
  {
    if s == "" then [""]
    else
      var rest := Split(s[1..]);
      if s[0] == ':' then [""] + rest else [[s[0]] + rest[0]] + rest[1..]
  }

  function Join(parts: seq<string>): string
    requires |parts| >= 1
  {
    if |parts| == 1 then parts[0]
    else Join(parts[..|parts| - 1]) + ":" + parts[|parts| - 1]
  }

  /** The last position of a ':' before position `n`, or -1. */
  function LastColon(s: string, n: nat): int
    requires n <= |s|
  {
    if n == 0 then -1 else if s[n - 1] == ':' then n - 1 else LastColon(s, n - 1)
  }

  /** Everything before the last ':', or the whole reference when it has none. */
  function ImageOf(tag: string): string {
    var colon := LastColon(tag, |tag|);
    if 0 <= colon < |tag| then tag[..colon] else tag
  }

  lemma {:induction false} LastColonIsLast(s: string, n: nat)
    requires n <= |s|
    ensures var c := LastColon(s, n);
            -1 <= c < n && (c >= 0 ==> s[c] == ':') && (forall k :: c < k < n ==> s[k] != ':')
  {
    if n > 0 && s[n - 1] != ':' {
      LastColonIsLast(s, n - 1);
    }
  }

  /** The cut is at the last colon, and only a reference with a colon is cut. */
  lemma CutAtLastColon(tag: string)
    ensures var image := ImageOf(tag);
            if ':' in tag then
              && |image| < |tag| && image == tag[..|image|]
              && tag[|image|] == ':' && (forall k :: |image| < k < |tag| ==> tag[k] != ':')
            else image == tag
  {
    LastColonIsLast(tag, |tag|);
  }

  /** Stripping undoes tagging, whatever colons (a registry port) the image contains. */
  lemma StripUndoesTagging(image: string, tag: string)
    requires ':' !in tag
    ensures ImageOf(image + ":" + tag) == image
  {
    var s := image + ":" + tag;
    CutAtLastColon(s);
    assert s[|image|] == ':';
    assert forall k :: |image| < k < |s| ==> s[k] == tag[k - |image| - 1];
    assert s[..|image|] == image;
  }

  lemma {:induction false} JoinCons(x: string, parts: seq<string>)
    requires |parts| >= 1
    ensures Join([x] + parts) == x + ":" + Join(parts)
  {
    var all := [x] + parts;
    if |parts| == 1 {
      assert all[..1] == [x];
    } else {
      JoinCons(x, parts[..|parts| - 1]);
      assert all[..|all| - 1] == [x] + parts[..|parts| - 1];
    }
  }

  lemma {:induction false} JoinPrepend(c: char, parts: seq<string>)
    requires |parts| >= 1
    ensures Join([[c] + parts[0]] + parts[1..]) == [c] + Join(parts)
  {
    var all := [[c] + parts[0]] + parts[1..];
    if |parts| > 1 {
      JoinPrepend(c, parts[..|parts| - 1]);
      assert parts[..|parts| - 1][1..] == parts[1..][..|parts| - 2];
      assert all[..|all| - 1] == [[c] + parts[0]] + parts[1..][..|parts| - 2];
    }
  }

  /** Splitting at colons loses nothing, and no part holds a colon. */
  lemma {:induction false} JoinUndoesSplit(s: string)
    ensures Join(Split(s)) == s
    ensures forall part :: part in Split(s) ==> ':' !in part
  {
    if s != "" {
      JoinUndoesSplit(s[1..]);
      var rest := Split(s[1..]);
      if s[0] == ':' {
        JoinCons("", rest);
        assert s == ":" + s[1..];
      } else {
        JoinPrepend(s[0], rest);
        assert s == [s[0]] + s[1..];
        forall part | part in Split(s) ensures ':' !in part {
          if part != [s[0]] + rest[0] {
            assert part in rest;
          }
        }
      }
    }
  }

  method StripTag(tag: string) returns (image: string)
    ensures image == ImageOf(tag)
  {
    var parts := Split(tag);
    JoinUndoesSplit(tag);
    if |parts| == 1 {
      CutAtLastColon(tag);
      return tag;
    }
    image := parts[0];
    var i := 1;
    while i < |parts| - 1
      invariant 1 <= i <= |parts| - 1
      invariant image == Join(parts[..i])
    {
      assert parts[..i + 1][..i] == parts[..i];
      image := image + ":" + parts[i];
      i := i + 1;
    }
    StripUndoesTagging(image, parts[|parts| - 1]);
  }
}
