/**
 * Removal of HTML tags from an anchor's href (strip_tags in src/app.py), which is
 * `re.sub('<[^<]+?>', '', s)`: the input is cut, left to right, into pieces that are
 * either a single kept character or a removed tag, and only the kept characters remain.
 * A tag is the SHORTEST span that starts with '<', holds one or more characters, none
 * of them '<', and ends with '>'.
 */
module Tags {
  import opened Wrappers

  /** `s` holds no '<', so no tag can start anywhere in it. */
  predicate NoOpen(s: string) {
    forall i :: 0 <= i < |s| ==> s[i] != '<'
  }

  /**
   * What the pattern `<[^<]+?>` matches, stated declaratively: '<', then one or more
   * characters other than '<', then '>', and no shorter span would do (the lazy `+?`),
   * so no '>' may appear where the span could already have ended.
   */
  ghost predicate IsTag(t: string) {
    && |t| >= 3
    && t[0] == '<'
    && t[|t| - 1] == '>'
    && (forall i :: 1 <= i < |t| ==> t[i] != '<')
    && (forall i :: 2 <= i < |t| - 1 ==> t[i] != '>')
  }

  /** No prefix of `s` is a tag: a regex search at this position fails. */
  ghost predicate NoTagAt(s: string) {
    forall n :: 0 <= n <= |s| ==> !IsTag(s[..n])
  }

  /**
   * The lazy scan after the opening '<' of `s`: `s[1..k]` has been consumed and
   * holds no '<'; the first '>' at index 2 or later ends the match, a '<' or the
   * end of the input makes it fail.
   */
  function CloseFrom(s: string, k: nat): (r: Option<nat>)
    requires 1 <= k
    ensures r.Some? ==> 3 <= r.value <= |s| && k < r.value
    decreases |s| - k
  {
    if k >= |s| || s[k] == '<' then None
    else if s[k] == '>' && k >= 2 then Some(k + 1)
    else CloseFrom(s, k + 1)
  }

  /** The length of the tag the pattern matches at the start of `s`, if any. */
  function TagLength(s: string): (r: Option<nat>)
    ensures r.Some? ==> 3 <= r.value <= |s| && s[0] == '<'
    ensures NoOpen(s) ==> r == None
  {
    if |s| > 0 && s[0] == '<' then CloseFrom(s, 1) else None
  }

  lemma {:induction false} CloseFromSpec(s: string, k: nat, n: nat)
    requires 1 <= k && |s| > 0 && s[0] == '<'
    requires forall i :: 1 <= i < k && i < |s| ==> s[i] != '<'
    requires forall i :: 2 <= i < k && i < |s| ==> s[i] != '>'
    requires n >= k
    ensures CloseFrom(s, k) == Some(n) <==> (n <= |s| && IsTag(s[..n]))
    decreases |s| - k
  {
    if k < |s| && s[k] != '<' && !(s[k] == '>' && k >= 2) && n > k {
      CloseFromSpec(s, k + 1, n);
    }
  }

  /** The scan agrees with the declarative description of a match, in both directions. */
  lemma TagLengthSpec(s: string, n: nat)
    ensures TagLength(s) == Some(n) <==> (n <= |s| && IsTag(s[..n]))
  {
    if |s| > 0 && s[0] == '<' && n >= 1 {
      CloseFromSpec(s, 1, n);
    }
  }

  /** At most one prefix of a string is a tag: the shortest match is unique. */
  lemma {:induction false} TagPrefixUnique(s: string, n: nat, m: nat)
    requires n <= |s| && m <= |s| && IsTag(s[..n]) && IsTag(s[..m])
    ensures n == m
  {
  }

  /** One step of the substitution: a character copied to the output, or a removed tag. */
  datatype Piece = Kept(c: char) | Removed(tag: string)

  /** The text of a piece. */
  function PieceText(p: Piece): string {
    match p case Kept(c) => [c] case Removed(t) => t
  }

  /** The text a sequence of pieces covers. */
  function Joined(ps: seq<Piece>): string {
    if ps == [] then [] else PieceText(ps[0]) + Joined(ps[1..])
  }

  /** The text a sequence of pieces leaves behind: the kept characters only. */
  function KeptText(ps: seq<Piece>): string {
    if ps == [] then []
    else (match ps[0] case Kept(c) => [c] case Removed(t) => []) + KeptText(ps[1..])
  }

  /**
   * `ps` is a left-to-right, leftmost-shortest match of the pattern over the text it
   * covers: every removed piece is a tag, and a character is kept only where no tag starts.
   */
  ghost predicate Tokenises(ps: seq<Piece>) {
    ps == [] ||
    (&& (match ps[0]
         case Removed(t) => IsTag(t)
         case Kept(c) => NoTagAt(Joined(ps)))
     && Tokenises(ps[1..]))
  }

  /** The substitution's scan over `s`. */
  function Scan(s: string): (ps: seq<Piece>)
    ensures Joined(ps) == s
    decreases |s|
  {
    if s == [] then []
    else match TagLength(s)
      case Some(n) => [Removed(s[..n])] + Scan(s[n..])
      case None => [Kept(s[0])] + Scan(s[1..])
  }

  /** strip_tags: the input without the spans the pattern matches. */
  function StripTags(s: string): (r: string)
    ensures |r| <= |s|
    ensures NoOpen(s) ==> r == s
  {
    var ps := Scan(s);
    KeptNoLonger(ps);
    if NoOpen(s) then AllKept(s); KeptText(ps) else KeptText(ps)
  }

  lemma {:induction false} KeptNoLonger(ps: seq<Piece>)
    ensures |KeptText(ps)| <= |Joined(ps)|
  {
    if ps != [] {
      KeptNoLonger(ps[1..]);
    }
  }

  lemma {:induction false} AllKept(s: string)
    requires NoOpen(s)
    ensures KeptText(Scan(s)) == s
    decreases |s|
  {
    if s != [] {
      assert NoOpen(s[1..]);
      AllKept(s[1..]);
    }
  }
  /** The scan is a leftmost-shortest match of the pattern over its input. */
  lemma {:induction false} ScanTokenises(s: string)
    ensures Tokenises(Scan(s))
    decreases |s|
  {
    if s != [] {
      match TagLength(s)
      case Some(n) =>
        TagLengthSpec(s, n);
        ScanTokenises(s[n..]);
        assert Scan(s)[1..] == Scan(s[n..]);
      case None =>
        forall n | 0 <= n <= |s| ensures !IsTag(s[..n]) {
          TagLengthSpec(s, n);
        }
        ScanTokenises(s[1..]);
        assert Scan(s)[1..] == Scan(s[1..]);
    }
  }

  /**
   * There is only one leftmost-shortest match of a text: any tokenisation of `s`
   * is the scan of `s`, so the scan is exactly what the substitution does.
   */
  lemma {:induction false} TokenisationUnique(ps: seq<Piece>, qs: seq<Piece>)
    requires Tokenises(ps) && Tokenises(qs) && Joined(ps) == Joined(qs)
    ensures ps == qs
    decreases |ps|
  {
    var s := Joined(ps);
    if ps == [] || qs == [] {
    } else {
      var a, b := PieceText(ps[0]), PieceText(qs[0]);
      assert s == a + Joined(ps[1..]);
      assert s == b + Joined(qs[1..]);
      assert s[..|a|] == a && s[..|b|] == b;
      if ps[0].Removed? && qs[0].Removed? {
        TagPrefixUnique(s, |a|, |b|);
      }
      assert ps[0] == qs[0];
      assert Joined(ps[1..]) == Joined(qs[1..]);
      TokenisationUnique(ps[1..], qs[1..]);
    }
  }

  /** The scan of ">": no tag starts at a '>', so it is kept. */
  lemma ScanClose()
    ensures Scan(">") == [Kept('>')]
  {
    assert ">"[1..] == [];
    assert TagLength(">") == None;
  }

  /** The scan of "<b>>": "<b>" is a tag, the last '>' is kept. */
  lemma ScanInnerTag()
    ensures Scan("<b>>") == [Removed("<b>"), Kept('>')]
  {
    ScanClose();
    assert "<b>>"[..3] == "<b>" && "<b>>"[3..] == ">";
    assert CloseFrom("<b>>", 2) == Some(3);
    assert TagLength("<b>>") == Some(3);
  }

  /** The scan of "a<b>>": the 'a' is kept, the rest scans as above. */
  lemma ScanAfterOpen()
    ensures Scan("a<b>>") == [Kept('a'), Removed("<b>"), Kept('>')]
  {
    ScanInnerTag();
    assert "a<b>>"[1..] == "<b>>";
    assert TagLength("a<b>>") == None;
  }

  /** The scan of "<a<b>>": the first '<' meets a second '<' before any '>', "<b>" is a tag. */
  lemma ScanNested()
    ensures Scan("<a<b>>") == [Kept('<'), Kept('a'), Removed("<b>"), Kept('>')]
  {
    ScanAfterOpen();
    assert "<a<b>>"[1..] == "a<b>>";
    assert CloseFrom("<a<b>>", 2) == None;
    assert TagLength("<a<b>>") == None;
  }

  /** The scan of "<a>": one tag, nothing kept. */
  lemma ScanShortTag()
    ensures Scan("<a>") == [Removed("<a>")]
  {
    assert "<a>"[..3] == "<a>" && "<a>"[3..] == [];
    assert CloseFrom("<a>", 2) == Some(3);
    assert TagLength("<a>") == Some(3);
  }

  /**
   * Not idempotent: "<a<b>>" keeps its first '<' because a second '<' follows before
   * any '>', loses "<b>", and the "<a>" left behind is itself a tag.
   */
  lemma StripTagsNotIdempotent()
    ensures StripTags("<a<b>>") == "<a>"
    ensures StripTags("<a>") == ""
  {
    ScanNested();
    ScanShortTag();
    var ps: seq<Piece> := [Kept('<'), Kept('a'), Removed("<b>"), Kept('>')];
    assert ps[1..][1..][1..][1..] == [];
    assert KeptText(ps[1..][1..][1..]) == ">";
    assert KeptText(ps) == "<a>";
    assert KeptText([Removed("<a>")]) == "";
  }
}
