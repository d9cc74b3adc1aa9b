/** The path prefixes that route rules may have, against the paths that requests can have. */
module RulePrefixes {
  import opened Bytes
  import opened CanonicalHead
  import opened CanonicalHeadPath
  import opened Http
  import PercentEncoding
  import R = RequestTarget
  import opened RouteMatch
  import UpstreamTarget

  const ESCAPED_SLASH: Bytes := "%2F"

  ghost predicate HasEscapedSlash(text: Bytes) { exists i: nat :: StandsAt(text, i, ESCAPED_SLASH) }

  predicate PathByte(c: Byte) { !R.BadTargetByte(c) && c != '?' }

  lemma SlashEscape(text: Bytes, i: nat)
    requires i + 2 < |text| && text[i] == '%' && IsUpperHexDigit(text[i + 1]) && IsUpperHexDigit(text[i + 2])
    ensures PercentEncoding.Octet(text[i + 1], text[i + 2]) == '/' <==> StandsAt(text, i, ESCAPED_SLASH)
  {
    var three := text[i..i + 3];
    assert three == [text[i], text[i + 1], text[i + 2]];
    if PercentEncoding.Octet(text[i + 1], text[i + 2]) == '/' {
      assert HexValue(text[i + 1]) == 2 && HexValue(text[i + 2]) == 15;
      assert three == ESCAPED_SLASH;
    }
    if StandsAt(text, i, ESCAPED_SLASH) { assert three[1] == '2' && three[2] == 'F'; }
  }

  lemma {:induction false} PathIsPrefix(text: Bytes, i: nat)
    requires i <= |text| && EscapesOk(text, i, |text|) && forall k :: i <= k < |text| ==> PathByte(text[k])
    ensures PrefixBytesOk(text, i)
    decreases |text| - i
  {
    if i < |text| { PathIsPrefix(text, if text[i] == '%' then i + 3 else i + 1); }
  }

  lemma {:induction false} PrefixIsPath(text: Bytes, i: nat)
    requires i <= |text| && PrefixBytesOk(text, i) && !HasEscapedSlash(text)
    ensures EscapesOk(text, i, |text|) && forall k :: i <= k < |text| ==> PathByte(text[k])
    decreases |text| - i
  {
    if i < |text| {
      if text[i] == '%' {
        SlashEscape(text, i);
        PrefixIsPath(text, i + 3);
      } else {
        PrefixIsPath(text, i + 1);
      }
    }
  }

  lemma {:induction false} NoEscapedSlash(text: Bytes, i: nat, k: nat)
    requires i <= |text| && EscapesOk(text, i, |text|) && i <= k
    ensures !StandsAt(text, k, ESCAPED_SLASH)
    decreases |text| - i
  {
    if i < |text| {
      if k > i && (text[i] != '%' || k > i + 2) {
        NoEscapedSlash(text, if text[i] == '%' then i + 3 else i + 1, k);
      } else if k == i && text[i] == '%' {
        SlashEscape(text, i);
      } else if StandsAt(text, k, ESCAPED_SLASH) {
        StandsByte(text, k, ESCAPED_SLASH, 0);
      }
    }
  }

  lemma PathAlone(path: Bytes)
    ensures PathOk(path, path) <==>
      && path != [] && path[0] == '/' && |path| <= TARGET_MAX && (forall i :: 0 <= i < |path| ==> PathByte(path[i]))
      && NoDotParts(path) && EscapesOk(path, 0, |path|)
  {
    hide EscapesOk;
    hide NoDotParts;
    hide R.BadTargetByte;
    if '?' in path {
      QueryIsNoPath(path);
    } else {
      assert path + [] == path;
      UpstreamTarget.PathThenQuery(path, []);
    }
  }

  lemma QueryIsNoPath(path: Bytes)
    requires '?' in path
    ensures !PathOk(path, path)
  {
    NotFound(path, '?');
    assert |path[..IndexOf(path, '?')]| == IndexOf(path, '?');
  }

  lemma NotFound(s: Bytes, c: Byte)
    ensures IndexOf(s, c) == |s| ==> c !in s
  {
    IndexOfFirst(s, c);
  }

  lemma PartsAreNoDots(path: Bytes)
    requires path != []
    ensures NoDotParts(path) <==> forall part :: part in Split(path[1..], '/') ==> part != "." && part != ".."
  {
  }

  /** A path that can be printed and does not end in a slash may be a prefix, and a prefix is such a path unless it has an
      escaped slash. */
  lemma PrefixMeans(prefix: Bytes)
    ensures PathOk(prefix, prefix) && (prefix == "/" || prefix[|prefix| - 1] != '/') ==> PrefixOk(prefix)
    ensures PrefixOk(prefix) ==> (PathOk(prefix, prefix) <==> !HasEscapedSlash(prefix))
  {
    PathAlone(prefix);
    hide PathOk;
    hide HasEscapedSlash;
    hide Split;
    if PathOk(prefix, prefix) {
      PathIsPrefix(prefix, 0);
      NeverEscaped(prefix);
      PartsAreNoDots(prefix);
    }
    if PrefixOk(prefix) && !HasEscapedSlash(prefix) {
      PrefixIsPath(prefix, 0);
      PartsAreNoDots(prefix);
    }
  }

  lemma NeverEscaped(path: Bytes)
    requires EscapesOk(path, 0, |path|)
    ensures !HasEscapedSlash(path)
  {
    forall k: nat ensures !StandsAt(path, k, ESCAPED_SLASH) { NoEscapedSlash(path, 0, k); }
  }

  /** A prefix with an escaped slash is accepted and serves no request: no normalised path begins with it. */
  lemma EscapedSlashNeverMatches(prefix: Bytes, pathAndQuery: Bytes, path: Bytes)
    requires HasEscapedSlash(prefix) && PathOk(pathAndQuery, path)
    ensures !PrefixMatches(prefix, path)
  {
    UpstreamTarget.PathSplits(pathAndQuery, path, []);
    EscapesOfTarget(pathAndQuery);
    IndexOfUnique(pathAndQuery, '?', |path|);
    assert pathAndQuery[..|path|] == path;
    NeverEscaped(path);
    hide HasEscapedSlash;
    KeptInFront(prefix, path);
    RootHasNone();
  }

  lemma KeptInFront(front: Bytes, text: Bytes)
    ensures front <= text && HasEscapedSlash(front) ==> HasEscapedSlash(text)
  {
    if front <= text && HasEscapedSlash(front) {
      var i: nat :| StandsAt(front, i, ESCAPED_SLASH);
      assert text[i..i + 3] == front[i..i + 3] && StandsAt(text, i, ESCAPED_SLASH);
    }
  }

  lemma RootHasNone()
    ensures !HasEscapedSlash("/")
  {
  }

  lemma EscapedSlashIsAccepted()
    ensures PrefixOk("/a%2Fb") && HasEscapedSlash("/a%2Fb")
  {
    var prefix: Bytes := "/a%2Fb";
    assert prefix[2..5] == ESCAPED_SLASH && StandsAt(prefix, 2, ESCAPED_SLASH);
    SplitLast(prefix[1..], '/');
  }
}
