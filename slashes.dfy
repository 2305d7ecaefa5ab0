/** The two slash helpers defined at the top of the adapter. Both are
    written in terms of `indexOf`, which is why the ending variant only
    trims a slash that is also the first slash of the string. */
module Slashes {
  import opened JsString

  /** `stripLeadingSlash`: drops one `/` when the string starts with it. */
  function StripLeadingSlash(s: string): (r: string)
    ensures r == if s != [] && s[0] == '/' then s[1..] else s
  {
    assert s != [] && s[0] == '/' ==> s[0] in s[..IndexOf(s, '/') + 1];
    if IndexOf(s, '/') == 0 then Substring(s, 1, |s|) else s
  }

  /** `stripEndingSlash`: drops the last character exactly when the first `/`
      of the string sits at its last index. The empty string compares -1 with
      -1 and goes through `substring(0, -1)`, which is empty again. */
  function StripEndingSlash(s: string): (r: string)
    ensures r == if s != [] && s[|s| - 1] == '/' && '/' !in s[..|s| - 1] then s[..|s| - 1] else s
  {
    var i := IndexOf(s, '/');
    assert 0 <= i < |s| - 1 ==> s[i] in s[..|s| - 1];
    if i == |s| - 1 then Substring(s, 0, |s| - 1) else s
  }

  /** At most one character goes, so a doubled slash leaves one behind and
      the helper is not idempotent. */
  lemma StripLeadingSlashOnce()
    ensures StripLeadingSlash("//a") == "/a"
    ensures StripLeadingSlash(StripLeadingSlash("//a")) == "a"
  {
  }

  /** A trailing slash survives whenever an earlier slash exists. */
  lemma {:induction false} StripEndingSlashKeepsInnerSlashes(s: string, i: nat)
    requires i < |s| - 1 && s[i] == '/'
    ensures StripEndingSlash(s) == s
  {
  }

  /** The same quirk on concrete strings: "a/b/" keeps its trailing slash,
      "a/" loses it, and "" stays "". */
  lemma StripEndingSlashExamples()
    ensures StripEndingSlash("a/b/") == "a/b/"
    ensures StripEndingSlash("a/") == "a"
    ensures StripEndingSlash("") == ""
  {
  }
}
