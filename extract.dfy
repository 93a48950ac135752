/**
 * `parseOCRText`: the fields read off the recognised text of a card. The
 * three regular-expression searches (e-mail, phone, web site) are inputs;
 * the line handling, the keyword tests and the phone clean-up are modelled.
 */
module Extract {
  import opened Wrappers
  import opened Seqs
  import opened Text
  import opened Contacts

  /**
   * The first match of each of the three regular expressions in the text,
   * as the JavaScript engine finds them; `None` when there is none.
   */
  datatype RegexMatches = RegexMatches(email: Option<string>, phone: Option<string>, website: Option<string>)

  /** A line with one of these names the company. */
  const CompanyKeywords: seq<string> := ["公司", "企業", "集團", "Co.", "Ltd", "Inc"]

  /** A line with one of these holds the job title. */
  const JobKeywords: seq<string> := ["總經理", "經理", "董事", "CEO", "CTO", "Manager"]

  predicate HasKeyword(line: string, keywords: seq<string>) {
    exists k :: k in keywords && Contains(line, k)
  }

  function KeywordTest(keywords: seq<string>): string -> bool {
    (line: string) => HasKeyword(line, keywords)
  }

  /**
   * `found` is the first of `lines` that holds one of the keywords, and is
   * absent exactly when none does.
   */
  ghost predicate FirstWithKeyword(lines: seq<string>, keywords: seq<string>, found: Option<string>) {
    && (found.None? <==> forall l :: l in lines ==> !HasKeyword(l, keywords))
    && (found.Some? ==>
          exists i :: && 0 <= i < |lines| && lines[i] == found.value
                      && HasKeyword(found.value, keywords)
                      && forall j :: 0 <= j < i ==> !HasKeyword(lines[j], keywords))
  }

  /** `lines.find(l => keywords.some(k => l.includes(k)))` is the first line with a keyword. */
  lemma FindKeywordLine(lines: seq<string>, keywords: seq<string>)
    ensures FirstWithKeyword(lines, keywords, Find(lines, KeywordTest(keywords)))
  {
  }

  predicate NotBlank(line: string) {
    line != ""
  }

  /** The trimmed pieces of the text between line feeds. */
  function TrimmedPieces(text: string): seq<string> {
    Map(Split(text, '\n'), Trim)
  }

  /** `text.split('\n').map(l => l.trim()).filter(l => l)`. */
  function Lines(text: string): seq<string> {
    Filter(TrimmedPieces(text), NotBlank)
  }

  /** A piece of one line, trimmed: nothing white at its ends, no line feed, cut from the piece. */
  lemma TrimmedPiece(piece: string)
    requires '\n' !in piece
    ensures Trimmed(Trim(piece)) && '\n' !in Trim(piece) && Padded(piece, Trim(piece))
  {
    PaddedOmits(piece, Trim(piece), '\n');
  }

  /** The lines are the non-blank trimmed pieces, taken at ascending piece indices. */
  lemma LinesInOrder(text: string)
    ensures var pieces, idx := Split(text, '\n'), Positions(TrimmedPieces(text), NotBlank);
      && |Lines(text)| == |idx|
      && (forall k :: 0 <= k < |idx| ==> idx[k] < |pieces| && Lines(text)[k] == Trim(pieces[idx[k]]))
      && (forall k, l :: 0 <= k < l < |idx| ==> idx[k] < idx[l])
      && (forall i :: 0 <= i < |pieces| ==> (Trim(pieces[i]) != "" <==> i in idx))
  {
    FilterKeepsOrder(TrimmedPieces(text), NotBlank);
  }

  /**
   * Every line is a non-empty, trimmed stretch of one line of the text; and
   * the lines are exactly the trimmed pieces that are not blank, at ascending
   * piece indices, so in the order of the text.
   */
  lemma LinesSpec(text: string)
    ensures forall l :: l in Lines(text) ==> NotBlank(l) && Trimmed(l) && '\n' !in l
    ensures forall l :: l in Lines(text) ==> exists piece :: piece in Split(text, '\n') && Padded(piece, l)
    ensures var pieces, idx := Split(text, '\n'), Positions(TrimmedPieces(text), NotBlank);
      && |Lines(text)| == |idx|
      && (forall k :: 0 <= k < |idx| ==> idx[k] < |pieces| && Lines(text)[k] == Trim(pieces[idx[k]]))
      && (forall k, l :: 0 <= k < l < |idx| ==> idx[k] < idx[l])
      && (forall i :: 0 <= i < |pieces| ==> (Trim(pieces[i]) != "" <==> i in idx))
  {
    LinesInOrder(text);
    LinesFromPieces(text);
  }

  /** Each line is a non-blank piece of one line of the text, trimmed. */
  lemma LinesFromPieces(text: string)
    ensures forall l :: l in Lines(text) ==> NotBlank(l) && Trimmed(l) && '\n' !in l
    ensures forall l :: l in Lines(text) ==> exists piece :: piece in Split(text, '\n') && Padded(piece, l)
  {
    var pieces := Split(text, '\n');
    FilterMembers(TrimmedPieces(text), NotBlank);
    forall l | l in Lines(text)
      ensures Trimmed(l) && '\n' !in l
      ensures exists piece :: piece in pieces && Padded(piece, l)
    {
      assert l in TrimmedPieces(text);
      var k :| 0 <= k < |pieces| && TrimmedPieces(text)[k] == l;
      assert l == Trim(pieces[k]) && pieces[k] in pieces;
      TrimmedPiece(pieces[k]);
    }
  }

  /**
   * `match.replace(/\s+/g, ' ').trim()`: the stored phone number has no white
   * space at its ends, only single plain spaces inside, and every other
   * character of the match, in order.
   */
  function NormalizePhone(m: string): (r: string)
    ensures Trimmed(r) && SingleSpaced(r)
    ensures Visible(r) == Visible(m)
  {
    var x := CollapseSpaces(m);
    var r := Trim(x);
    PaddedSingleSpaced(x, r);
    PaddedVisible(x, r);
    CollapseKeepsVisible(m);
    r
  }

  /**
   * Inside a phone number each run of white space between two parts becomes
   * exactly one space, and the parts are cleaned up on their own.
   */
  lemma NormalizePhoneRun(a: string, w: string, b: string)
    requires a != [] && b != [] && Trimmed(a) && Trimmed(b)
    requires w != [] && AllSpace(w)
    ensures NormalizePhone(a + w + b) == NormalizePhone(a) + " " + NormalizePhone(b)
  {
    CollapseRun(a, w, b);
    var ca, cb := CollapseSpaces(a), CollapseSpaces(b);
    CollapseTrimmed(a);
    CollapseTrimmed(b);
    TrimOfTrimmed(ca);
    TrimOfTrimmed(cb);
    TrimOfTrimmed(ca + [' '] + cb);
  }

  /** White space around a phone number is dropped whole. */
  lemma NormalizePhonePadded(pre: string, m: string, post: string)
    requires AllSpace(pre) && AllSpace(post) && m != [] && Trimmed(m)
    ensures NormalizePhone(pre + m + post) == NormalizePhone(m)
  {
    var cm := CollapseSpaces(m);
    CollapseTrimmed(m);
    var lead: string := if pre == [] then [] else [' '];
    var trail: string := if post == [] then [] else [' '];
    CollapseAround(pre, m, post);
    TrimUnique(lead, cm, trail);
    TrimOfTrimmed(cm);
  }

  /** A phone number without white space is kept as it is. */
  lemma NormalizePhoneNoSpace(m: string)
    requires forall i :: 0 <= i < |m| ==> !IsSpace(m[i])
    ensures NormalizePhone(m) == m
  {
    CollapseNoSpace(m);
    if m != [] {
      assert !IsSpace(m[0]) && !IsSpace(m[|m| - 1]);
    }
    TrimOfTrimmed(m);
  }

  /**
   * `parseOCRText(text)`: the full text always; the first line as the name;
   * the first line naming a company keyword as the company and the first
   * naming a job keyword as the job title; the regular-expression matches
   * as e-mail and web site; the phone match cleaned up. What is not found
   * stays absent.
   */
  function ParseOCRText(text: string, found: RegexMatches): (info: Draft)
    ensures info.fullText == Some(text)
    ensures info.name == Find(TrimmedPieces(text), NotBlank)
    ensures info.name.Some? ==> info.name.value in Lines(text)
    ensures FirstWithKeyword(Lines(text), CompanyKeywords, info.company)
    ensures FirstWithKeyword(Lines(text), JobKeywords, info.jobTitle)
    ensures info.email == found.email && info.website == found.website
    ensures info.phone.Some? <==> found.phone.Some?
    ensures info.phone.Some? ==>
      && Trimmed(info.phone.value) && SingleSpaced(info.phone.value)
      && Visible(info.phone.value) == Visible(found.phone.value)
    ensures info.phone.Some? ==> info.phone.value == NormalizePhone(found.phone.value)
    ensures info.id.None? && info.address.None? && info.category.None? && info.notes.None? && info.image.None?
  {
    var lines := Lines(text);
    FilterHeadIsFind(TrimmedPieces(text), NotBlank);
    assert lines != [] ==> lines[0] in lines;
    FindKeywordLine(lines, CompanyKeywords);
    FindKeywordLine(lines, JobKeywords);
    Draft(
      id := None,
      name := if |lines| > 0 then Some(lines[0]) else None,
      company := Find(lines, KeywordTest(CompanyKeywords)),
      jobTitle := Find(lines, KeywordTest(JobKeywords)),
      phone := if found.phone.Some? then Some(NormalizePhone(found.phone.value)) else None,
      email := found.email,
      address := None,
      website := found.website,
      category := None,
      notes := None,
      fullText := Some(text),
      image := None)
  }

  /** Text without a non-blank line gives no name; otherwise the name is its first line. */
  lemma NameIsFirstLine(text: string, found: RegexMatches)
    ensures ParseOCRText(text, found).name.None? <==> Lines(text) == []
    ensures Lines(text) != [] ==> ParseOCRText(text, found).name == Some(Lines(text)[0])
  {
    FilterHeadIsFind(TrimmedPieces(text), NotBlank);
  }
}
