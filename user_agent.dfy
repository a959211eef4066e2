/**
 * The user-agent string that `Create` hands to the package manager:
 * "arduino-cli/" followed by the version string, then one space and the
 * tag for each extra user-agent tag, in order.
 */
module UserAgentString {

  /** The product token that opens every user agent. */
  const Product: string := "arduino-cli/"

  function Prefix(versionString: string): (p: string)
    ensures |p| == |Product| + |versionString|
  {
    Product + versionString
  }

  /** What the extra tags contribute: a space before each tag, in order. */
  function Suffix(extra: seq<string>): (s: string)
  {
    if extra == [] then "" else " " + extra[0] + Suffix(extra[1..])
  }

  function UserAgent(versionString: string, extra: seq<string>): (ua: string)
  {
    Prefix(versionString) + Suffix(extra)
  }

  /** Appending tags appends their text: the suffix is a monoid morphism. */
  lemma {:induction false} SuffixAppend(a: seq<string>, b: seq<string>)
    ensures Suffix(a + b) == Suffix(a) + Suffix(b)
  {
    if a == [] {
      assert a + b == b;
    } else {
      assert (a + b)[0] == a[0];
      assert (a + b)[1..] == a[1..] + b;
      SuffixAppend(a[1..], b);
    }
  }

  /**
   * The loop in `Create` (instances.go:123-126): the prefix, then
   * `" " + ua` appended for each extra tag.
   */
  method BuildUserAgent(versionString: string, extraUserAgent: seq<string>) returns (userAgent: string)
    ensures userAgent == UserAgent(versionString, extraUserAgent)
  {
    userAgent := Product + versionString;
    for i := 0 to |extraUserAgent|
      invariant userAgent == Prefix(versionString) + Suffix(extraUserAgent[..i])
    {
      var ua := extraUserAgent[i];
      assert extraUserAgent[..i + 1] == extraUserAgent[..i] + [ua];
      assert Suffix([ua]) == " " + ua;
      SuffixAppend(extraUserAgent[..i], [ua]);
      userAgent := userAgent + " " + ua;
    }
    assert extraUserAgent[..|extraUserAgent|] == extraUserAgent;
  }

  /** Index of the first space in `s`, or `|s|` when there is none. */
  function FirstSpace(s: string): (k: nat)
    ensures k <= |s|
    ensures forall j :: 0 <= j < k ==> s[j] != ' '
    ensures k < |s| ==> s[k] == ' '
  {
    if s == [] || s[0] == ' ' then 0 else 1 + FirstSpace(s[1..])
  }

  /**
   * Reads the extra tags back out of a suffix: each tag runs from just
   * after a space up to the next space or the end.
   */
  function ParseSuffix(s: string): (tags: seq<string>)
    decreases |s|
  {
    if s == [] || s[0] != ' ' then []
    else
      var k := FirstSpace(s[1..]);
      [s[1..1 + k]] + ParseSuffix(s[1 + k..])
  }

  predicate SpaceFree(tag: string)
  {
    ' ' !in tag
  }

  /** A suffix is empty or starts with the space of its first tag. */
  lemma SuffixStartsWithSpace(extra: seq<string>)
    ensures Suffix(extra) == [] || Suffix(extra)[0] == ' '
  {
  }

  /** The first space after a space-free tag is the one that opens the next tag. */
  lemma {:induction false} FirstSpaceAfterTag(tag: string, rest: string)
    requires SpaceFree(tag)
    requires rest == [] || rest[0] == ' '
    ensures FirstSpace(tag + rest) == |tag|
  {
    var s := tag + rest;
    forall j | 0 <= j < |tag|
      ensures s[j] != ' '
    {
      assert s[j] == tag[j] && tag[j] in tag;
    }
    if rest != [] {
      assert s[|tag|] == ' ';
    }
  }

  /**
   * Round trip: when no tag contains a space, the tags can be read back
   * from the suffix in order, so the user agent carries every extra tag.
   */
  lemma {:induction false} ParseSuffixInverts(extra: seq<string>)
    requires forall i :: 0 <= i < |extra| ==> SpaceFree(extra[i])
    ensures ParseSuffix(Suffix(extra)) == extra
  {
    if extra != [] {
      var tag, rest := extra[0], Suffix(extra[1..]);
      var s := Suffix(extra);
      assert s == " " + tag + rest;
      assert s[1..] == tag + rest;
      SuffixStartsWithSpace(extra[1..]);
      FirstSpaceAfterTag(tag, rest);
      assert s[1..1 + |tag|] == tag;
      assert s[1 + |tag|..] == rest;
      ParseSuffixInverts(extra[1..]);
    }
  }

  /**
   * The user agent is the product token and version, followed by text from
   * which the extra tags are recovered unchanged and in order.
   */
  lemma UserAgentRoundTrip(versionString: string, extra: seq<string>)
    requires forall i :: 0 <= i < |extra| ==> SpaceFree(extra[i])
    ensures |Prefix(versionString)| <= |UserAgent(versionString, extra)|
    ensures UserAgent(versionString, extra)[..|Prefix(versionString)|] == Prefix(versionString)
    ensures ParseSuffix(UserAgent(versionString, extra)[|Prefix(versionString)|..]) == extra
  {
    var p, ua := Prefix(versionString), UserAgent(versionString, extra);
    assert ua[|p|..] == Suffix(extra);
    ParseSuffixInverts(extra);
  }
}
