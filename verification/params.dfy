/**
  Conditional `name=` / `filename=` parameter augmentation of an attachment's
  Content-Type and Content-Disposition values.  The presence test is the
  PCRE pattern `;\s+KEY=`: a semicolon, at least one whitespace character,
  then the key and an equals sign, anywhere in the value, case-sensitively.
  The `filename` parameter is the one of section 2.3 of RFC 2183.
 */
module Params {
  import opened Wrappers
  import opened Php

  /** PCRE's `\s` outside UTF mode: HT, LF, VT, FF, CR and space. */
  predicate IsSpace(c: char)
  {
    c == ' ' || 9 <= c as int <= 13
  }

  /** `;\s+KEY=` matches with the semicolon at `i` and the key starting at `j`. */
  predicate MatchAt(s: string, key: string, i: int, j: int)
  {
    && 0 <= i && i + 1 < j && j + |key| + 1 <= |s|
    && s[i] == ';'
    && (forall k :: i < k < j ==> IsSpace(s[k]))
    && s[j..j + |key| + 1] == key + "="
  }

  /** `preg_match('/;\s+KEY=/', s)`. */
  predicate HasParam(s: string, key: string)
  {
    exists i, j | 0 <= i < j <= |s| :: MatchAt(s, key, i, j)
  }

  /** The text appended for a parameter: `; KEY="VALUE"`. */
  function ParamText(key: string, value: string): string
  {
    "; " + key + "=\"" + value + "\""
  }

  /**
    Appends `; KEY="FILENAME"` when the filename is truthy and the value
    does not already carry the parameter; otherwise the value is unchanged.
   */
  function Augment(value: string, filename: Option<string>, key: string): (r: string)
    ensures value <= r
    ensures Truthy(filename) ==> HasParam(r, key)
    ensures r != value <==> Truthy(filename) && !HasParam(value, key)
    ensures r != value ==> r[|value|..] == ParamText(key, filename.value)
  {
    if Truthy(filename) && !HasParam(value, key) then
      var r := value + ParamText(key, filename.value);
      assert MatchAt(r, key, |value|, |value| + 2) by {
        assert r[|value| + 2..|value| + 2 + |key| + 1] == key + "=";
      }
      r
    else value
  }

  /** Augmenting twice with the same filename adds the parameter at most once. */
  lemma AugmentIdempotent(value: string, filename: Option<string>, key: string)
    ensures Augment(Augment(value, filename, key), filename, key) == Augment(value, filename, key)
  {
  }

  /** Once a filename has been added, a later augmentation with any filename leaves the value alone. */
  lemma AugmentFirstWins(value: string, first: Option<string>, second: Option<string>, key: string)
    requires Truthy(first)
    ensures Augment(Augment(value, first, key), second, key) == Augment(value, first, key)
  {
  }

  /**
    The test needs whitespace after the semicolon: a Content-Type written
    `application/pdf;name="a.pdf"` is not recognised as carrying a name and
    receives a second one.
   */
  lemma UnspacedParamNotRecognised()
    ensures !HasParam("application/pdf;name=\"a.pdf\"", "name")
    ensures Augment("application/pdf;name=\"a.pdf\"", Some("a.pdf"), "name")
         == "application/pdf;name=\"a.pdf\"" + "; name=\"a.pdf\""
  {
    var s := "application/pdf;name=\"a.pdf\"";
    UnspacedParamAbsent();
    var t := ParamText("name", "a.pdf");
    assert t == "; name=\"a.pdf\"";
    assert Augment(s, Some("a.pdf"), "name") == s + t;
  }

  /** The pattern finds no `name=` parameter in `application/pdf;name="a.pdf"`. */
  lemma UnspacedParamAbsent()
    ensures !HasParam("application/pdf;name=\"a.pdf\"", "name")
  {
    var a, b := "application/pdf", "name=\"a.pdf\"";
    var s := a + ";" + b;
    assert s == "application/pdf;name=\"a.pdf\"";
    assert s[..15] == a && s[16..] == b;
    assert ';' !in a && ';' !in b;
    SemicolonFollowedBy(s, 15, "name");
  }

  /** A value whose only semicolon is followed by a non-space character carries no parameter. */
  lemma SemicolonFollowedBy(s: string, p: nat, key: string)
    requires p + 1 < |s| && s[p] == ';' && !IsSpace(s[p + 1])
    requires ';' !in s[..p] && ';' !in s[p + 1..]
    ensures !HasParam(s, key)
  {
    forall i | 0 <= i < |s| && i != p ensures s[i] != ';' {
      if i < p {
        assert s[i] == s[..p][i];
      } else {
        assert s[i] == s[p + 1..][i - p - 1];
      }
    }
  }
}
