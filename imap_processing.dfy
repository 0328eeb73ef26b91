/**
 * The IMAP processing script: turning one fetched message into (subject, body, sender),
 * cleaning the body of tags and extra whitespace, the lower-cased text handed to the
 * classifier, and the choice of which message ids are processed. The IMAP connection,
 * MIME decoding and the classifier are parameters or given inputs.
 */
module ImapProcessing {
  import opened Wrappers
  import opened Strings

  /**
   * One part of `msg.walk()`: its content type, its Content-Disposition header (None when
   * absent) and its payload decoded as text ("" when the payload is empty or absent).
   */
  datatype MimePart = MimePart(contentType: string, disposition: Option<string>, payload: string)

  /**
   * A fetched message: From and Subject headers (None when absent, the subject already
   * header-decoded), whether it is multipart, its parts in walk order, and for a single-part
   * message its payload decoded as text.
   */
  datatype ImapMessage = ImapMessage(from: Option<string>, subject: Option<string>, multipart: bool,
                                     parts: seq<MimePart>, payload: string)

  datatype EmailContent = EmailContent(subject: string, body: string, sender: string)

  // ---------------------------------------------------------------------------
  // Sender
  // ---------------------------------------------------------------------------

  /** The sender address: the From value, cut down to the text inside "<…>" when it has a '<'. */
  function ExtractSender(from: Option<string>): string {
    match from
    case None => ""
    case Some(s) =>
      if s == "" then ""
      else if '<' in s then Split(Split(s, '<')[1], '>')[0]
      else s
  }

  /**
   * With a '<', the sender is the text after the first '<' up to the next '<' or '>' (or the
   * end), so it holds neither; without one, it is the From value unchanged ("" when absent).
   */
  lemma ExtractSenderSpec(from: Option<string>)
    ensures from.None? ==> ExtractSender(from) == ""
    ensures from.Some? && '<' !in from.value ==> ExtractSender(from) == from.value
    ensures from.Some? && '<' in from.value ==>
      var rest := from.value[IndexOf(from.value, '<') + 1..];
      var r := ExtractSender(from);
      |r| <= |rest| && r == rest[..|r|] && '<' !in r && '>' !in r &&
      (|r| < |rest| ==> rest[|r|] == '<' || rest[|r|] == '>')
  {
    if from.Some? && '<' in from.value {
      ExtractSenderBracket(from.value);
    }
  }

  lemma ExtractSenderBracket(s: string)
    requires '<' in s
    ensures var rest := s[IndexOf(s, '<') + 1..];
      var r := ExtractSender(Some(s));
      |r| <= |rest| && r == rest[..|r|] && '<' !in r && '>' !in r &&
      (|r| < |rest| ==> rest[|r|] == '<' || rest[|r|] == '>')
  {
    var rest := s[IndexOf(s, '<') + 1..];
    SplitSecondPiece(s, '<');
    var b := Split(rest, '<')[0];
    SplitFirstPiece(rest, '<');
    var r := Split(b, '>')[0];
    SplitFirstPiece(b, '>');
    assert ExtractSender(Some(s)) == r;
    CutOfCut(rest, b, r);
  }

  /** A prefix of a prefix, each cut at a separator. */
  lemma CutOfCut(rest: string, b: string, r: string)
    requires |b| <= |rest| && b == rest[..|b|] && '<' !in b && (|b| < |rest| ==> rest[|b|] == '<')
    requires |r| <= |b| && r == b[..|r|] && '>' !in r && (|r| < |b| ==> b[|r|] == '>')
    ensures |r| <= |rest| && r == rest[..|r|] && '<' !in r && '>' !in r
    ensures |r| < |rest| ==> rest[|r|] == '<' || rest[|r|] == '>'
  {
    assert forall k :: 0 <= k < |r| ==> r[k] == b[k];
  }

  // ---------------------------------------------------------------------------
  // Tags: re.sub(r'<[^>]+>', ' ', body)
  // ---------------------------------------------------------------------------

  /**
   * The length of the tag `<[^>]+>` that starts `s`, if one does: a '<', at least one
   * character other than '>', then the first '>'.
   */
  function TagLength(s: string): (n: Option<nat>)
    ensures n.Some? ==> 3 <= n.value <= |s| && s[0] == '<' && s[n.value - 1] == '>' && '>' !in s[1..n.value - 1]
  {
    if |s| >= 3 && s[0] == '<' && '>' in s[1..] && s[1] != '>' then
      var k := IndexOf(s[1..], '>');
      assert s[1..][..k] == s[1..k + 1];
      Some(k + 2)
    else None
  }

  /** Replaces every tag, scanning left to right, by one space. */
  function StripTags(s: string): (r: string)
    ensures forall i :: 0 <= i < |r| && r[i] != ' ' ==> r[i] in s
    ensures |s| > 0 && s[0] != '<' ==> |r| > 0 && r[0] == s[0]
    decreases |s|
  {
    if |s| == 0 then ""
    else match TagLength(s)
      case Some(n) => " " + StripTags(s[n..])
      case None => [s[0]] + StripTags(s[1..])
  }

  /** No '<' in `r` is followed by a non-empty run of non-'>' characters and a '>'. */
  predicate NoTag(r: string) {
    forall i :: 0 <= i < |r| && r[i] == '<' ==> TagLength(r[i..]).None?
  }

  /** After the replacement no tag is left. */
  lemma {:induction false} StripTagsLeavesNoTag(s: string)
    ensures NoTag(StripTags(s))
    decreases |s|
  {
    if |s| > 0 {
      var r := StripTags(s);
      match TagLength(s)
      case Some(n) =>
        StripTagsLeavesNoTag(s[n..]);
        var t := StripTags(s[n..]);
        assert r == " " + t;
        forall i | 0 <= i < |r| && r[i] == '<'
          ensures TagLength(r[i..]).None?
        {
          assert r[i..] == t[i - 1..];
        }
      case None =>
        StripTagsLeavesNoTag(s[1..]);
        var t := StripTags(s[1..]);
        assert r == [s[0]] + t;
        forall i | 0 <= i < |r| && r[i] == '<'
          ensures TagLength(r[i..]).None?
        {
          if i == 0 {
            if '>' in r[1..] {
              var k := IndexOf(r[1..], '>');
              assert r[1..] == t;
              assert t[k] == '>' && t[k] in s[1..];
              if |s| > 1 && s[1] != '<' {
                assert t[0] == s[1];
              }
            }
          } else {
            assert r[i..] == t[i - 1..];
          }
        }
    }
  }

  lemma {:induction false} IndexOfAfter(x: string, c: char, y: string)
    requires c !in x
    ensures c in x + [c] + y && IndexOf(x + [c] + y, c) == |x|
    decreases |x|
  {
    var s := x + [c] + y;
    assert s[|x|] == c;
    if |x| > 0 {
      assert s[1..] == x[1..] + [c] + y;
      IndexOfAfter(x[1..], c, y);
    }
  }

  /** A string that opens with a tag `<t>` has a tag of that length at its start. */
  lemma TagAtStart(t: string, b: string)
    requires t != [] && '>' !in t
    ensures TagLength("<" + t + ">" + b) == Some(|t| + 2)
  {
    var s := "<" + t + ">" + b;
    assert s[1..] == t + ">" + b;
    IndexOfAfter(t, '>', b);
  }

  /** A string that does not start with '<' keeps its first character. */
  lemma StripTagsCons(s: string)
    requires |s| > 0 && s[0] != '<'
    ensures StripTags(s) == [s[0]] + StripTags(s[1..])
  {
    assert TagLength(s).None?;
  }

  /** Text without '<' in front of anything passes through unchanged. */
  lemma {:induction false} StripTagsPrefix(a: string, rest: string)
    requires '<' !in a
    ensures StripTags(a + rest) == a + StripTags(rest)
    decreases |a|
  {
    if |a| > 0 {
      var s := a + rest;
      assert s[0] == a[0];
      StripTagsCons(s);
      assert s[1..] == a[1..] + rest;
      StripTagsPrefix(a[1..], rest);
      assert a == [a[0]] + a[1..];
    } else {
      assert a + rest == rest;
    }
  }

  /** A leading tag becomes one space. */
  lemma StripTagsLeadingTag(t: string, b: string)
    requires t != [] && '>' !in t
    ensures StripTags("<" + t + ">" + b) == " " + StripTags(b)
  {
    var s := "<" + t + ">" + b;
    TagAtStart(t, b);
    assert s[|t| + 2..] == b;
  }

  /**
   * Text before the first '<' is kept as it is, and the tag after it becomes one space.
   */
  lemma StripTagsReplacesTag(a: string, t: string, b: string)
    requires '<' !in a && t != [] && '>' !in t
    ensures StripTags(a + ("<" + t + ">" + b)) == a + (" " + StripTags(b))
  {
    StripTagsLeadingTag(t, b);
    StripTagsPrefix(a, "<" + t + ">" + b);
  }

  /** Text without '<' has no tag and is left unchanged. */
  lemma {:induction false} StripTagsNoBracket(s: string)
    requires '<' !in s
    ensures StripTags(s) == s
    decreases |s|
  {
    if |s| > 0 {
      StripTagsNoBracket(s[1..]);
      assert s == [s[0]] + s[1..];
    }
  }

  /** A '<' that opens no tag (no '>' after it, or '>' right after it) is kept as text. */
  lemma StripTagsKeepsLoneBracket(b: string)
    requires '>' !in b || (|b| > 0 && b[0] == '>')
    ensures StripTags("<" + b) == "<" + StripTags(b)
  {
    var s := "<" + b;
    assert s[1..] == b;
    assert TagLength(s).None?;
  }

  // ---------------------------------------------------------------------------
  // Whitespace: re.sub(r'\s+', ' ', body).strip()
  // ---------------------------------------------------------------------------

  /** The characters of `s` that are not whitespace, in order. */
  function NonSpace(s: string): string {
    if |s| == 0 then "" else (if IsSpace(s[0]) then "" else [s[0]]) + NonSpace(s[1..])
  }

  lemma {:induction false} NonSpaceAppend(a: string, b: string)
    ensures NonSpace(a + b) == NonSpace(a) + NonSpace(b)
    decreases |a|
  {
    if |a| == 0 {
      assert a + b == b;
    } else {
      assert (a + b)[0] == a[0];
      assert (a + b)[1..] == a[1..] + b;
      NonSpaceAppend(a[1..], b);
    }
  }

  lemma {:induction false} NonSpaceOfSpaces(s: string)
    requires forall i :: 0 <= i < |s| ==> IsSpace(s[i])
    ensures NonSpace(s) == ""
    decreases |s|
  {
    if |s| > 0 {
      NonSpaceOfSpaces(s[1..]);
    }
  }

  /** The only whitespace character in `s` is ' '. */
  predicate OnlyBlanks(s: string) {
    forall i :: 0 <= i < |s| && IsSpace(s[i]) ==> s[i] == ' '
  }

  /** No two whitespace characters of `s` are adjacent. */
  predicate NoDoubleSpace(s: string) {
    forall i :: 0 <= i < |s| - 1 ==> !(IsSpace(s[i]) && IsSpace(s[i + 1]))
  }

  /** Every run of whitespace becomes one ' ' (`re.sub(r'\s+', ' ', s)`). */
  function CollapseSpaces(s: string): (r: string)
    ensures |s| > 0 ==> |r| > 0 && (IsSpace(r[0]) <==> IsSpace(s[0]))
    ensures OnlyBlanks(r) && NoDoubleSpace(r)
    ensures NonSpace(r) == NonSpace(s)
    decreases |s|
  {
    if |s| == 0 then ""
    else if IsSpace(s[0]) then
      var rest := TrimLeft(s, Whitespace);
      var t := CollapseSpaces(rest);
      assert s == s[..|s| - |rest|] + rest;
      NonSpaceAppend(s[..|s| - |rest|], rest);
      NonSpaceOfSpaces(s[..|s| - |rest|]);
      " " + t
    else
      [s[0]] + CollapseSpaces(s[1..])
  }

  /** The cleaning applied to every body: tags become spaces, whitespace runs one space, ends stripped. */
  function CleanBody(body: string): string {
    Strip(CollapseSpaces(StripTags(body)))
  }

  /** Cutting whitespace off both ends keeps the other characters. */
  lemma {:induction false} NonSpaceOfInfix(c: string, i: nat, j: nat)
    requires i <= j <= |c|
    requires forall k :: 0 <= k < i ==> IsSpace(c[k])
    requires forall k :: j <= k < |c| ==> IsSpace(c[k])
    ensures NonSpace(c[i..j]) == NonSpace(c)
  {
    NonSpaceOfThree(c, i, j);
    NonSpaceOfSpaces(c[..i]);
    NonSpaceOfSpaces(c[j..]);
  }

  lemma {:induction false} NonSpaceOfThree(c: string, i: nat, j: nat)
    requires i <= j <= |c|
    ensures NonSpace(c) == NonSpace(c[..i]) + NonSpace(c[i..j]) + NonSpace(c[j..])
  {
    assert c[..i] + c[i..j] == c[..j];
    NonSpaceAppend(c[..i], c[i..j]);
    assert c[..j] + c[j..] == c;
    NonSpaceAppend(c[..j], c[j..]);
  }

  /** Stripping keeps single blanks single and leaves no whitespace at either end. */
  lemma StripCollapsed(c: string)
    requires OnlyBlanks(c) && NoDoubleSpace(c)
    ensures var r := Strip(c);
      (r != [] ==> !IsSpace(r[0]) && !IsSpace(r[|r| - 1])) &&
      OnlyBlanks(r) && NoDoubleSpace(r) && NonSpace(r) == NonSpace(c)
  {
    var i, j := StripCharsShape(c, Whitespace);
    InfixKeepsBlanks(c, i, j);
    NonSpaceOfInfix(c, i, j);
  }

  lemma InfixKeepsBlanks(c: string, i: nat, j: nat)
    requires i <= j <= |c| && OnlyBlanks(c) && NoDoubleSpace(c)
    ensures OnlyBlanks(c[i..j]) && NoDoubleSpace(c[i..j])
  {
    var r := c[i..j];
    assert forall k :: 0 <= k < |r| ==> r[k] == c[i + k];
  }

  /**
   * A cleaned body has no whitespace at either end, no two whitespace characters in a row
   * and no whitespace other than ' '; its other characters are those of the body once the
   * tags are replaced, in order.
   */
  lemma CleanBodySpec(body: string)
    ensures var r := CleanBody(body);
      (r != [] ==> !IsSpace(r[0]) && !IsSpace(r[|r| - 1])) &&
      OnlyBlanks(r) && NoDoubleSpace(r) && NonSpace(r) == NonSpace(StripTags(body))
  {
    StripCollapsed(CollapseSpaces(StripTags(body)));
  }

  /** No character of `s` is whitespace. */
  predicate IsWord(s: string) {
    forall i :: 0 <= i < |s| ==> !IsSpace(s[i])
  }

  /** A whitespace run: every character of `s` is whitespace. */
  predicate IsRun(s: string) {
    forall i :: 0 <= i < |s| ==> IsSpace(s[i])
  }

  /** The length of the longest prefix of `s` without whitespace. */
  function WordLength(s: string): (n: nat)
    ensures n <= |s| && IsWord(s[..n])
    ensures n < |s| ==> IsSpace(s[n])
    ensures |s| > 0 && !IsSpace(s[0]) ==> n > 0
    decreases |s|
  {
    if |s| == 0 || IsSpace(s[0]) then 0
    else
      var m := WordLength(s[1..]);
      assert s[..m + 1] == [s[0]] + s[1..][..m];
      m + 1
  }

  /** `s.split()`: the maximal runs of non-whitespace characters of `s`, in order. */
  function Words(s: string): seq<string>
    decreases |s|
  {
    var t := TrimLeft(s, Whitespace);
    if t == [] then []
    else
      var n := WordLength(t);
      [t[..n]] + Words(t[n..])
  }

  /** Every word is non-empty and holds no whitespace. */
  lemma {:induction false} WordsAreWords(s: string)
    ensures forall w :: w in Words(s) ==> w != [] && IsWord(w)
    decreases |s|
  {
    var t := TrimLeft(s, Whitespace);
    if t != [] {
      var n := WordLength(t);
      assert t[0] !in Whitespace && n > 0;
      var rest := Words(t[n..]);
      assert Words(s) == [t[..n]] + rest;
      WordsAreWords(t[n..]);
    }
  }

  /** A word passes through collapsing unchanged. */
  lemma {:induction false} CollapseWord(w: string, rest: string)
    requires IsWord(w)
    ensures CollapseSpaces(w + rest) == w + CollapseSpaces(rest)
    decreases |w|
  {
    if |w| == 0 {
      assert w + rest == rest;
    } else {
      CollapseWordStep(w, rest);
      CollapseWord(w[1..], rest);
      ConsRest(w, CollapseSpaces(rest));
    }
  }

  lemma CollapseWordStep(w: string, rest: string)
    requires w != [] && IsWord(w)
    ensures IsWord(w[1..])
    ensures CollapseSpaces(w + rest) == [w[0]] + CollapseSpaces(w[1..] + rest)
  {
    var s := w + rest;
    assert s[0] == w[0];
    CollapseHead(s);
    assert s[1..] == w[1..] + rest;
  }

  lemma ConsRest(w: string, c: string)
    requires w != []
    ensures [w[0]] + (w[1..] + c) == w + c
  {
    assert w == [w[0]] + w[1..];
  }

  lemma CollapseHead(s: string)
    requires s != [] && !IsSpace(s[0])
    ensures CollapseSpaces(s) == [s[0]] + CollapseSpaces(s[1..])
  {
  }

  lemma {:induction false} TrimLeftRun(w: string, rest: string)
    requires IsRun(w)
    requires rest == [] || !IsSpace(rest[0])
    ensures TrimLeft(w + rest, Whitespace) == rest
    decreases |w|
  {
    if |w| == 0 {
      assert w + rest == rest;
    } else {
      assert (w + rest)[0] == w[0];
      assert (w + rest)[1..] == w[1..] + rest;
      TrimLeftRun(w[1..], rest);
    }
  }

  /**
   * A whole whitespace run collapses to one ' '. With `CollapseWord` this fixes the result
   * on every string: a non-empty string opens with either a word or a whole run.
   */
  lemma CollapseRun(w: string, rest: string)
    requires w != [] && IsRun(w)
    requires rest == [] || !IsSpace(rest[0])
    ensures CollapseSpaces(w + rest) == " " + CollapseSpaces(rest)
  {
    assert (w + rest)[0] == w[0];
    TrimLeftRun(w, rest);
  }

  lemma StripLeadingBlank(x: string)
    ensures Strip(" " + x) == Strip(x)
  {
    assert (" " + x)[1..] == x;
  }

  lemma StripWordBlank(w: string)
    requires w != [] && IsWord(w)
    ensures Strip(w + " ") == w
  {
    var s := w + " ";
    assert s[0] == w[0];
    assert s[..|s| - 1] == w;
    StripCharsNoop(w, Whitespace);
  }

  lemma {:induction false} TrimRightAfter(p: string, c: string)
    requires c != [] && !IsSpace(c[0])
    ensures TrimRight(p + c, Whitespace) == p + TrimRight(c, Whitespace)
    decreases |c|
  {
    var s := p + c;
    if IsSpace(c[|c| - 1]) {
      assert s[|s| - 1] == c[|c| - 1];
      assert s[..|s| - 1] == p + c[..|c| - 1];
      TrimRightAfter(p, c[..|c| - 1]);
    } else {
      assert s[|s| - 1] == c[|c| - 1];
    }
  }

  lemma StripWordBlankText(w: string, c: string)
    requires w != [] && IsWord(w)
    requires c != [] && !IsSpace(c[0])
    ensures Strip(w + (" " + c)) == w + (" " + Strip(c))
  {
    var s := w + (" " + c);
    assert s[0] == w[0];
    TrimRightAfter(w + " ", c);
    assert s == (w + " ") + c;
  }

  /** Joining a word in front of a non-empty list puts one `sep` after it. */
  lemma JoinCons(w: string, ws: seq<string>, sep: char)
    requires ws != []
    ensures Join([w] + ws, sep) == w + ([sep] + Join(ws, sep))
  {
    assert ([w] + ws)[1..] == ws;
  }

  /** Leading whitespace does not change the words. */
  lemma WordsAfterTrim(s: string)
    ensures Words(TrimLeft(s, Whitespace)) == Words(s)
  {
    var t := TrimLeft(s, Whitespace);
    assert TrimLeft(t, Whitespace) == t;
  }

  /** A string that opens with a word has that word first. */
  lemma WordsOfWordFirst(s: string)
    requires s != [] && !IsSpace(s[0])
    ensures Words(s) == [s[..WordLength(s)]] + Words(s[WordLength(s)..])
  {
    assert TrimLeft(s, Whitespace) == s;
  }

  /**
   * Collapsing runs to one ' ' and then stripping is `' '.join(s.split())`: the words of `s`,
   * in order, with one ' ' between each two.
   */
  lemma {:induction false} CollapseStripIsJoinedWords(s: string)
    ensures Strip(CollapseSpaces(s)) == Join(Words(s), ' ')
    decreases |s|, 1
  {
    if |s| == 0 {
    } else if IsSpace(s[0]) {
      var t := SpaceFirst(s);
      CollapseStripIsJoinedWords(t);
    } else {
      var w, rest := WordFirst(s);
      if rest == [] {
        StripCharsNoop(w, Whitespace);
        assert Words(rest) == [];
      } else {
        CollapseAfterWord(w, rest);
      }
    }
  }

  /** Leading whitespace changes neither the collapsed-and-stripped text nor the words. */
  lemma SpaceFirst(s: string) returns (t: string)
    requires s != [] && IsSpace(s[0])
    ensures |t| < |s|
    ensures Strip(CollapseSpaces(s)) == Strip(CollapseSpaces(t)) && Words(s) == Words(t)
  {
    t := TrimLeft(s, Whitespace);
    assert CollapseSpaces(s) == " " + CollapseSpaces(t);
    StripLeadingBlank(CollapseSpaces(t));
    WordsAfterTrim(s);
  }

  /** A text that opens with a word: the word, then a rest that is empty or opens with whitespace. */
  lemma WordFirst(s: string) returns (w: string, rest: string)
    requires s != [] && !IsSpace(s[0])
    ensures s == w + rest && w != [] && IsWord(w) && (rest == [] || IsSpace(rest[0]))
    ensures CollapseSpaces(s) == w + CollapseSpaces(rest) && Words(s) == [w] + Words(rest)
  {
    var n := WordLength(s);
    w, rest := s[..n], s[n..];
    assert s == w + rest;
    CollapseWord(w, rest);
    WordsOfWordFirst(s);
  }

  /** The inductive step after a word `w` followed by a whitespace run. */
  lemma {:induction false} CollapseAfterWord(w: string, rest: string)
    requires w != [] && IsWord(w) && rest != [] && IsSpace(rest[0])
    ensures Strip(w + CollapseSpaces(rest)) == Join([w] + Words(rest), ' ')
    decreases |rest|, 0
  {
    var t := TrimLeft(rest, Whitespace);
    assert CollapseSpaces(rest) == " " + CollapseSpaces(t);
    WordsAfterTrim(rest);
    if t == [] {
      assert Words(rest) == [];
      assert CollapseSpaces(rest) == " ";
      StripWordBlank(w);
    } else {
      var c := CollapseSpaces(t);
      WordsOfWordFirst(t);
      calc {
        Strip(w + CollapseSpaces(rest));
        Strip(w + (" " + c));
        { StripWordBlankText(w, c); }
        w + (" " + Strip(c));
        { CollapseStripIsJoinedWords(t); }
        w + (" " + Join(Words(t), ' '));
        { JoinCons(w, Words(t), ' '); }
        Join([w] + Words(rest), ' ');
      }
    }
  }

  /** A cleaned body is the words of the body, once the tags are replaced, joined by one ' '. */
  lemma CleanBodyIsJoinedWords(body: string)
    ensures CleanBody(body) == Join(Words(StripTags(body)), ' ')
  {
    CollapseStripIsJoinedWords(StripTags(body));
  }

  // ---------------------------------------------------------------------------
  // Message content
  // ---------------------------------------------------------------------------

  /** `str(part.get("Content-Disposition"))`: "None" when the header is absent. */
  function DispositionText(d: Option<string>): string {
    match d
    case None => "None"
    case Some(s) => s
  }

  /** A walked part contributes to the body: not an attachment, text/plain, non-empty payload. */
  predicate IsBodyPart(p: MimePart) {
    !Occurs("attachment", DispositionText(p.disposition)) && p.contentType == "text/plain" && p.payload != ""
  }

  /** The body of a multipart message: each body part's text followed by "\n", in walk order. */
  function PartsBody(parts: seq<MimePart>): string {
    if |parts| == 0 then ""
    else PartsBody(parts[..|parts| - 1]) + (if IsBodyPart(parts[|parts| - 1]) then parts[|parts| - 1].payload + "\n" else "")
  }

  /** The raw body before cleaning: the joined body parts, or the single payload. */
  function RawBody(msg: ImapMessage): string {
    if msg.multipart then PartsBody(msg.parts) else msg.payload
  }

  function SubjectOf(msg: ImapMessage): string {
    match msg.subject
    case None => ""
    case Some(s) => s
  }

  /** The content of a message, treating an empty single-part payload as an empty body. */
  function ContentOf(msg: ImapMessage): EmailContent {
    EmailContent(SubjectOf(msg), CleanBody(RawBody(msg)), ExtractSender(msg.from))
  }

  /**
   * The content as the script computes it: for a single-part message whose payload is empty,
   * the body is left as the bytes b"" and the cleaning raises a TypeError, so no content.
   */
  function ContentAsWritten(msg: ImapMessage): Option<EmailContent> {
    if !msg.multipart && msg.payload == "" then None else Some(ContentOf(msg))
  }

  /** A message with an empty single-part body is lost in the script as written. */
  lemma EmptySinglePartIsDropped()
    ensures ContentAsWritten(ImapMessage(None, Some("Hello"), false, [], "")).None?
    ensures ContentOf(ImapMessage(None, Some("Hello"), false, [], "")) == EmailContent("Hello", "", "")
  {
    assert StripTags("") == "" && CollapseSpaces("") == "";
    assert CleanBody("") == "";
  }

  /** The walk over a multipart message's parts, appending each body part's text and a newline. */
  method JoinBodyParts(parts: seq<MimePart>) returns (body: string)
    ensures body == PartsBody(parts)
  {
    body := "";
    for i := 0 to |parts|
      invariant body == PartsBody(parts[..i])
    {
      assert parts[..i + 1][..i] == parts[..i];
      var part := parts[i];
      if Occurs("attachment", DispositionText(part.disposition)) {
        continue;
      }
      if part.contentType == "text/plain" && part.payload != "" {
        body := body + part.payload + "\n";
      }
    }
    assert parts[..|parts|] == parts;
  }

  /**
   * `get_email_content`: sender and subject from the headers, the body assembled part by
   * part (attachments skipped), then cleaned. An empty single-part body gives body "".
   */
  method GetEmailContent(msg: ImapMessage) returns (c: EmailContent)
    ensures c == ContentOf(msg)
  {
    var sender := ExtractSender(msg.from);
    var subject := SubjectOf(msg);
    var body := "";
    if msg.multipart {
      body := JoinBodyParts(msg.parts);
    } else {
      body := msg.payload;
    }
    body := StripTags(body);
    body := Strip(CollapseSpaces(body));
    c := EmailContent(subject, body, sender);
  }

  // ---------------------------------------------------------------------------
  // Preprocessing and the processing loop
  // ---------------------------------------------------------------------------

  /** `preprocess_email`: the subject twice, then the body, lower-cased. */
  function Preprocess(subject: string, body: string): string {
    Lower(subject + " " + subject + " " + body)
  }

  /**
   * The text is the lower-cased subject twice and the lower-cased body, separated by single
   * spaces; it has no upper-case letter, so lower-casing it again changes nothing.
   */
  lemma PreprocessSpec(subject: string, body: string)
    ensures var r := Preprocess(subject, body);
      r == Lower(subject) + " " + Lower(subject) + " " + Lower(body) &&
      |r| == 2 * |subject| + |body| + 2 &&
      HasNoUpper(r) && Lower(r) == r
  {
    LowerDistributes(subject + " " + subject + " ", body);
    LowerDistributes(subject + " " + subject, " ");
    LowerDistributes(subject + " ", subject);
    LowerDistributes(subject, " ");
    LowerIsIdempotent(subject + " " + subject + " " + body);
  }

  /** Python's `s[start:]` for an integer start, negative counting from the end. */
  function SliceFrom<T>(s: seq<T>, start: int): seq<T> {
    var k := if start < 0 then (if |s| + start < 0 then 0 else |s| + start)
             else (if start > |s| then |s| else start);
    s[k..]
  }

  function Reverse<T>(s: seq<T>): (r: seq<T>)
    ensures |r| == |s| && forall k :: 0 <= k < |s| ==> r[k] == s[|s| - 1 - k]
  {
    if |s| == 0 then [] else Reverse(s[1..]) + [s[0]]
  }

  /** The ids processed: the last `min(len(ids), maxEmails)` ids, newest first. */
  function SelectRecent(ids: seq<string>, maxEmails: int): seq<string> {
    var count := if |ids| < maxEmails then |ids| else maxEmails;
    if count == 0 then [] else Reverse(SliceFrom(ids, -count))
  }

  /**
   * For a non-negative limit exactly `min(n, maxEmails)` ids are chosen: the newest ones,
   * newest first (none when there are no ids). A negative limit, which the script never
   * passes, makes the slice skip that many of the oldest ids instead.
   */
  lemma SelectRecentSpec(ids: seq<string>, maxEmails: int)
    ensures maxEmails >= 0 ==>
      var n := if |ids| < maxEmails then |ids| else maxEmails;
      |SelectRecent(ids, maxEmails)| == n &&
      forall k :: 0 <= k < n ==> SelectRecent(ids, maxEmails)[k] == ids[|ids| - 1 - k]
    ensures ids == [] ==> SelectRecent(ids, maxEmails) == []
    ensures maxEmails < 0 ==>
      SelectRecent(ids, maxEmails) == Reverse(ids[if -maxEmails < |ids| then -maxEmails else |ids|..])
  {
  }

  datatype Prediction = Prediction(category: string, confidence: real)

  /** One entry of the results: the content plus its classification and id. */
  datatype ClassifiedEmail = ClassifiedEmail(content: EmailContent, category: string, confidence: real, emailId: string)

  /** The result entry for message `msg` fetched under `id`: its content and the classification of its text. */
  function Entry(id: string, msg: ImapMessage, classify: string -> Prediction): ClassifiedEmail {
    var c := ContentOf(msg);
    var p := classify(Preprocess(c.subject, c.body));
    ClassifiedEmail(c, p.category, p.confidence, id)
  }

  /** Processing each selected id in order; an id whose fetch fails is skipped. */
  function ProcessAll(ids: seq<string>, fetch: string -> Option<ImapMessage>,
                      classify: string -> Prediction): seq<ClassifiedEmail> {
    if |ids| == 0 then []
    else
      var init := ProcessAll(ids[..|ids| - 1], fetch, classify);
      var id := ids[|ids| - 1];
      match fetch(id)
      case None => init
      case Some(msg) => init + [Entry(id, msg, classify)]
  }


  /** At most one result per id. */
  lemma {:induction false} ProcessAllLength(ids: seq<string>, fetch: string -> Option<ImapMessage>,
                                            classify: string -> Prediction)
    ensures |ProcessAll(ids, fetch, classify)| <= |ids|
    decreases |ids|
  {
    if |ids| > 0 {
      ProcessAllLength(ids[..|ids| - 1], fetch, classify);
    }
  }

  /** A successfully fetched last id appends its entry to the results of the ids before it. */
  lemma ProcessAllLast(ids: seq<string>, fetch: string -> Option<ImapMessage>, classify: string -> Prediction)
    requires |ids| > 0 && fetch(ids[|ids| - 1]).Some?
    ensures var r := ProcessAll(ids, fetch, classify);
      |r| > 0 && r[..|r| - 1] == ProcessAll(ids[..|ids| - 1], fetch, classify) &&
      r[|r| - 1] == Entry(ids[|ids| - 1], fetch(ids[|ids| - 1]).value, classify)
  {
  }

  /**
   * When every fetch succeeds there is one result per id, in order: entry k is the content
   * of message k with the classification of its preprocessed text.
   */
  lemma {:induction false} ProcessAllComplete(ids: seq<string>, fetch: string -> Option<ImapMessage>,
                                              classify: string -> Prediction)
    requires forall i :: 0 <= i < |ids| ==> fetch(ids[i]).Some?
    ensures |ProcessAll(ids, fetch, classify)| == |ids|
    ensures forall k :: 0 <= k < |ids| ==>
      ProcessAll(ids, fetch, classify)[k] == Entry(ids[k], fetch(ids[k]).value, classify)
    decreases |ids|
  {
    if |ids| > 0 {
      var init := ids[..|ids| - 1];
      ProcessAllComplete(init, fetch, classify);
      ProcessAllLast(ids, fetch, classify);
      var r := ProcessAll(ids, fetch, classify);
      var ri := ProcessAll(init, fetch, classify);
      forall k | 0 <= k < |ids|
        ensures r[k] == Entry(ids[k], fetch(ids[k]).value, classify)
      {
        if k < |init| {
          assert init[k] == ids[k];
          assert ri[k] == Entry(init[k], fetch(init[k]).value, classify);
          assert r[k] == r[..|r| - 1][k];
        } else {
          assert |r| == |ids| && k == |r| - 1;
        }
      }
    }
  }


  /** Processing one more id appends its entry, unless its fetch fails. */
  lemma ProcessAllStep(ids: seq<string>, i: nat, fetch: string -> Option<ImapMessage>,
                       classify: string -> Prediction)
    requires i < |ids|
    ensures fetch(ids[i]).None? ==> ProcessAll(ids[..i + 1], fetch, classify) == ProcessAll(ids[..i], fetch, classify)
    ensures fetch(ids[i]).Some? ==>
      ProcessAll(ids[..i + 1], fetch, classify) ==
      ProcessAll(ids[..i], fetch, classify) + [Entry(ids[i], fetch(ids[i]).value, classify)]
  {
    assert ids[..i + 1][..i] == ids[..i];
  }

  /** The body of the processing loop for one fetched message: extract, preprocess, classify. */
  method ClassifyOne(id: string, msg: ImapMessage, classify: string -> Prediction) returns (e: ClassifiedEmail)
    ensures e == Entry(id, msg, classify)
  {
    var content := GetEmailContent(msg);
    var text := Preprocess(content.subject, content.body);
    var prediction := classify(text);
    e := ClassifiedEmail(content, prediction.category, prediction.confidence, id);
  }

  /**
   * The loop of `fetch_and_classify_emails` over the selected ids: each is fetched, its
   * content extracted and preprocessed, and the text classified; an id whose fetch fails
   * is skipped.
   */
  method ClassifySelected(selected: seq<string>, fetch: string -> Option<ImapMessage>,
                          classify: string -> Prediction) returns (results: seq<ClassifiedEmail>)
    ensures results == ProcessAll(selected, fetch, classify)
  {
    results := [];
    for i := 0 to |selected|
      invariant results == ProcessAll(selected[..i], fetch, classify)
    {
      var id := selected[i];
      var msg := fetch(id);
      ProcessAllStep(selected, i, fetch, classify);
      if msg.None? {
        continue;
      }
      var entry := ClassifyOne(id, msg.value, classify);
      results := results + [entry];
    }
    assert selected[..|selected|] == selected;
  }

  /**
   * `fetch_and_classify_emails`: the selected ids, newest first, each fetched, its content
   * extracted and preprocessed, and the text classified.
   */
  method FetchAndClassify(ids: seq<string>, maxEmails: int, fetch: string -> Option<ImapMessage>,
                          classify: string -> Prediction) returns (results: seq<ClassifiedEmail>)
    ensures results == ProcessAll(SelectRecent(ids, maxEmails), fetch, classify)
  {
    var count := if |ids| < maxEmails then |ids| else maxEmails;
    if count == 0 {
      assert SelectRecent(ids, maxEmails) == [];
      return [];
    }
    var selected := Reverse(SliceFrom(ids, -count));
    assert selected == SelectRecent(ids, maxEmails);
    results := ClassifySelected(selected, fetch, classify);
  }
}
