/** Portable identities: the armoured text they travel in, and the checks made when one is imported. */
module Armour {
  import opened Encoding
  import opened Lists
  import opened Records
  import Cli

  const BEGIN := "-----BEGIN FREETALK IDENTITY-----"
  const END := "-----END FREETALK IDENTITY-----"
  const MARK := "-----"
  const LINE_WIDTH := 64

  // ---------- Adding the armour ----------

  /** The lines after the header. */
  function Tail(encoded: string): string {
    if encoded == "" then END
    else if |encoded| <= LINE_WIDTH then encoded + "\n" + END
    else encoded[..LINE_WIDTH] + "\n" + Tail(encoded[LINE_WIDTH..])
  }

  function Armoured(encoded: string): string { BEGIN + "\n" + Tail(encoded) }

  method ToArmouredString(encoded: string) returns (result: string)
    ensures result == Armoured(encoded)
  {
    result := BEGIN;
    result := result + "\n";
    var i := 0;
    while i < |encoded|
      invariant 0 <= i <= |encoded|
      invariant result + Tail(encoded[i..]) == Armoured(encoded)
    {
      var end := if i + LINE_WIDTH < |encoded| then i + LINE_WIDTH else |encoded|;
      ghost var rest := encoded[i..];
      assert encoded[end..] == rest[end - i..] && encoded[i..end] == rest[..end - i];
      assert Tail(rest) == encoded[i..end] + "\n" + Tail(encoded[end..]);
      assert result + (encoded[i..end] + "\n" + Tail(encoded[end..]))
          == result + encoded[i..end] + "\n" + Tail(encoded[end..]);
      result := result + encoded[i..end];
      result := result + "\n";
      i := end;
    }
    result := result + END;
  }

  // ---------- Stripping it ----------

  // The characters with the Unicode property White_Space.
  predicate IsSpace(c: char) {
    || '\t' <= c <= '\r' || c == ' ' || c == '\U{0085}' || c == '\U{00A0}' || c == '\U{1680}'
    || '\U{2000}' <= c <= '\U{200A}' || c == '\U{2028}' || c == '\U{2029}' || c == '\U{202F}'
    || c == '\U{205F}' || c == '\U{3000}'
  }

  /** There are 25 of them. */
  lemma SpacesListed(c: char)
    ensures IsSpace(c)
            <==> c in "\t\n\U{000B}\U{000C}\r \U{0085}\U{00A0}\U{1680}"
                      + "\U{2000}\U{2001}\U{2002}\U{2003}\U{2004}\U{2005}\U{2006}\U{2007}\U{2008}\U{2009}\U{200A}"
                      + "\U{2028}\U{2029}\U{202F}\U{205F}\U{3000}"
  {
  }

  predicate AllSpace(s: string) {
    forall c :: c in s ==> IsSpace(c)
  }

  function TrimEnd(s: string): string {
    if s != "" && IsSpace(s[|s| - 1]) then TrimEnd(s[..|s| - 1]) else s
  }

  function TrimStart(s: string): string {
    if s != "" && IsSpace(s[0]) then TrimStart(s[1..]) else s
  }

  function Trim(s: string): string { TrimStart(TrimEnd(s)) }

  function NewlineAt(s: string): (i: nat)
    ensures i <= |s| && (i < |s| ==> s[i] == '\n') && '\n' !in s[..i]
  {
    if s == "" || s[0] == '\n' then 0 else
    assert s[..1 + NewlineAt(s[1..])] == [s[0]] + s[1..][..NewlineAt(s[1..])];
    1 + NewlineAt(s[1..])
  }

  function WithoutReturn(line: string): string {
    if line != "" && line[|line| - 1] == '\r' then line[..|line| - 1] else line
  }

  /** The lines of a text: each ends at a line feed, with or without a carriage return before it; nothing follows the
      last. */
  function Lines(s: string): seq<string> {
    if s == "" then []
    else if NewlineAt(s) == |s| then [s]
    else [WithoutReturn(s[..NewlineAt(s)])] + Lines(s[NewlineAt(s) + 1..])
  }

  /** What one line adds to the payload. */
  function Body(line: string): string {
    if MARK <= Trim(line) then "" else Trim(line)
  }

  function Bodies(lines: seq<string>): string {
    if lines == [] then "" else Body(lines[0]) + Bodies(lines[1..])
  }

  function Stripped(s: string): string { Bodies(Lines(s)) }

  // ---------- Any layout of the same payload ----------

  function Join(lines: seq<string>): string {
    if lines == [] then "" else if |lines| == 1 then lines[0] else lines[0] + "\n" + Join(lines[1..])
  }

  // A line of a token: a marker, or a piece of the payload with white space around it. A blank line is a piece of no
  // characters, a carriage return is white space after one.
  datatype Line = Marker(text: string) | Piece(before: string, piece: string, after: string)
  {
    function Text(): string { if Marker? then text else before + piece + after }

    ghost predicate Valid() {
      && '\n' !in Text()
      && if Marker? then MARK <= Trim(text) else AllSpace(before) && IsBase58(piece) && AllSpace(after)
    }
  }

  function Texts(layout: seq<Line>): (texts: seq<string>)
    ensures |texts| == |layout| && forall i :: 0 <= i < |layout| ==> texts[i] == layout[i].Text()
  {
    if layout == [] then [] else [layout[0].Text()] + Texts(layout[1..])
  }

  /** The payload pieces of a layout put together. */
  function Payload(layout: seq<Line>): string {
    if layout == [] then ""
    else (if layout[0].Piece? then layout[0].piece else "") + Payload(layout[1..])
  }

  lemma {:induction false} TrimEndOfSpace(s: string, after: string)
    requires AllSpace(after)
    ensures TrimEnd(s + after) == TrimEnd(s)
  {
    if after == "" {
      assert s + after == s;
    } else {
      var n := |after| - 1;
      assert after[n] in after;
      assert (s + after)[..|s + after| - 1] == s + after[..n];
      TrimEndOfSpace(s, after[..n]);
    }
  }

  lemma {:induction false} TrimStartOfSpace(before: string, s: string)
    requires AllSpace(before)
    ensures TrimStart(before + s) == TrimStart(s)
  {
    if before == "" {
      assert before + s == s;
    } else {
      assert before[0] in before;
      assert (before + s)[1..] == before[1..] + s;
      TrimStartOfSpace(before[1..], s);
    }
  }

  lemma TrimmedPiece(before: string, piece: string, after: string)
    requires AllSpace(before) && IsBase58(piece) && AllSpace(after)
    ensures Trim(before + piece + after) == piece
  {
    TrimEndOfSpace(before + piece, after);
    if piece == "" {
      assert before + piece == "" + before;
      TrimEndOfSpace("", before);
    } else {
      assert piece[|piece| - 1] in piece && piece[0] in piece;
      TrimStartOfSpace(before, piece);
    }
  }

  lemma BodyOfLine(line: Line)
    requires line.Valid()
    ensures Body(line.Text()) == if line.Piece? then line.piece else ""
  {
    if line.Piece? {
      TrimmedPiece(line.before, line.piece, line.after);
      assert MARK <= line.piece ==> line.piece[0] == MARK[0] && line.piece[0] in line.piece;
    }
  }

  lemma BodyWithoutReturn(line: string)
    ensures Body(WithoutReturn(line)) == Body(line)
  {
  }

  lemma FirstNewline(line: string, rest: string)
    requires '\n' !in line
    ensures NewlineAt(line + "\n" + rest) == |line|
  {
    var s := line + "\n" + rest;
    var i := NewlineAt(s);
    assert s[|line|] == '\n';
    assert forall k :: 0 <= k < i ==> s[k] in s[..i];
    assert forall k :: 0 <= k < |line| ==> s[k] == line[k] && s[k] in line;
  }

  lemma {:induction false} StrippedJoin(lines: seq<string>)
    requires forall l :: l in lines ==> '\n' !in l
    ensures Stripped(Join(lines)) == Bodies(lines)
  {
    if lines != [] {
      var l, s := lines[0], Join(lines);
      assert l in lines;
      if |lines| == 1 {
        assert lines[1..] == [];
        if l != "" {
          assert NewlineAt(l) == |l|;
          assert Lines(l) == [l];
        }
      } else {
        var rest := Join(lines[1..]);
        FirstNewline(l, rest);
        assert s[..|l|] == l && s[|l| + 1..] == rest;
        BodyWithoutReturn(l);
        assert forall x :: x in lines[1..] ==> x in lines;
        StrippedJoin(lines[1..]);
        assert Lines(s) == [WithoutReturn(l)] + Lines(rest);
        assert Lines(s)[1..] == Lines(rest);
      }
    }
  }

  lemma {:induction false} BodiesOfLayout(layout: seq<Line>)
    requires forall l :: l in layout ==> l.Valid()
    ensures Bodies(Texts(layout)) == Payload(layout)
  {
    if layout != [] {
      assert layout[0] in layout && forall l :: l in layout[1..] ==> l in layout;
      BodyOfLine(layout[0]);
      BodiesOfLayout(layout[1..]);
      assert Texts(layout)[1..] == Texts(layout[1..]);
    }
  }

  /** Whatever the markers, blank lines, indentation, line ends and wrapping, stripping yields the payload. */
  lemma AnyLayoutParses(layout: seq<Line>)
    requires forall l :: l in layout ==> l.Valid()
    ensures Stripped(Join(Texts(layout))) == Payload(layout)
  {
    var texts := Texts(layout);
    forall t | t in texts ensures '\n' !in t {
      var i :| 0 <= i < |texts| && texts[i] == t;
      assert layout[i] in layout;
    }
    StrippedJoin(texts);
    BodiesOfLayout(layout);
  }

  // ---------- The layout the armour has ----------

  function Bare(piece: Base58): Line { Piece("", piece, "") }

  function Wrapped(p: Base58): seq<Line> {
    if p == "" then []
    else if |p| <= LINE_WIDTH then [Bare(p)]
    else [Bare(p[..LINE_WIDTH])] + Wrapped(p[LINE_WIDTH..])
  }

  function Layout(p: Base58): seq<Line> {
    [Marker(BEGIN)] + Wrapped(p) + [Marker(END)]
  }

  lemma {:induction false} WrappedMeaning(p: Base58)
    ensures Payload(Wrapped(p) + [Marker(END)]) == p
    ensures Join(Texts(Wrapped(p) + [Marker(END)])) == Tail(p)
    ensures forall l :: l in Wrapped(p) ==> l.Piece? && l.Valid() && 0 < |l.Text()| <= LINE_WIDTH
    decreases |p|
  {
    if p == "" {
      assert Wrapped(p) + [Marker(END)] == [Marker(END)];
      assert Texts([Marker(END)]) == [END];
    } else {
      var first, rest := FirstChunk(p);
      WrappedMeaning(rest);
      OneLineMore(Bare(first), Wrapped(rest) + [Marker(END)]);
      BareIsValid(first);
      assert [Bare(first)] + (Wrapped(rest) + [Marker(END)]) == Wrapped(p) + [Marker(END)];
    }
  }

  lemma FirstChunk(p: Base58) returns (first: Base58, rest: Base58)
    requires p != ""
    ensures p == first + rest && 0 < |first| <= LINE_WIDTH && |rest| < |p|
    ensures |p| > LINE_WIDTH ==> |first| == LINE_WIDTH
    ensures Wrapped(p) == [Bare(first)] + Wrapped(rest)
    ensures Tail(p) == first + "\n" + Tail(rest)
  {
    if |p| <= LINE_WIDTH {
      first, rest := p, "";
    } else {
      first, rest := p[..LINE_WIDTH], p[LINE_WIDTH..];
    }
  }

  lemma BareIsValid(piece: Base58)
    ensures Bare(piece).Valid() && Bare(piece).Text() == piece
  {
    assert "" + piece + "" == piece;
    assert forall c :: c in piece ==> IsBase58Char(c);
  }

  lemma OneLineMore(line: Line, rest: seq<Line>)
    requires rest != []
    ensures Payload([line] + rest) == (if line.Piece? then line.piece else "") + Payload(rest)
    ensures Join(Texts([line] + rest)) == line.Text() + "\n" + Join(Texts(rest))
  {
    var all := [line] + rest;
    assert all[1..] == rest;
    assert Texts(all)[1..] == Texts(rest);
  }

  /** Stripping undoes the armour. */
  lemma ArmourRoundTrip(p: Base58)
    ensures Stripped(Armoured(p)) == p
    ensures Armoured(p) == Join(Texts(Layout(p)))
  {
    WrappedMeaning(p);
    LayoutJoined(p);
    MarkersTrimmed();
    AnyLayoutParses(Layout(p));
  }

  /** Between the two markers stand lines of 64 characters, of which only the last may be shorter. */
  lemma ArmourLines(p: Base58)
    ensures var lines, n := Texts(Layout(p)), |Layout(p)| - 1;
            && n > 0 && lines[0] == "-----BEGIN FREETALK IDENTITY-----"
            && lines[n] == "-----END FREETALK IDENTITY-----"
            && (forall i :: 0 < i < n - 1 ==> |lines[i]| == 64)
            && (n > 1 ==> 0 < |lines[n - 1]| <= 64)
  {
    var w, all := Wrapped(p), Layout(p);
    FullLines(p);
    WrappedMeaning(p);
    assert forall i :: 0 <= i < |w| ==> all[i + 1] == w[i];
    assert w != [] ==> w[|w| - 1] in w;
  }

  lemma {:induction false} FullLines(p: Base58)
    ensures forall i :: 0 <= i < |Wrapped(p)| - 1 ==> |Wrapped(p)[i].Text()| == 64
    decreases |p|
  {
    if |p| > LINE_WIDTH {
      var first, rest := FirstChunk(p);
      FullLines(rest);
      BareIsValid(first);
      assert |first| == 64;
      assert forall i :: 0 < i < |Wrapped(p)| ==> Wrapped(p)[i] == Wrapped(rest)[i - 1];
    }
  }

  lemma LayoutJoined(p: Base58)
    ensures Layout(p)[1..] == Wrapped(p) + [Marker(END)]
    ensures Texts(Layout(p))[1..] == Texts(Wrapped(p) + [Marker(END)])
  {
    assert Layout(p)[1..] == Wrapped(p) + [Marker(END)];
  }

  lemma MarkersTrimmed()
    ensures Marker(BEGIN).Valid() && Marker(END).Valid()
  {
    assert BEGIN[0] == '-' && BEGIN[|BEGIN| - 1] == '-' && END[0] == '-' && END[|END| - 1] == '-';
    TrimmedMarker(BEGIN);
    TrimmedMarker(END);
  }

  lemma TrimmedMarker(s: string)
    requires s != "" && !IsSpace(s[0]) && !IsSpace(s[|s| - 1])
    ensures Trim(s) == s
  {
  }

  // ---------- Importing ----------

  // A signing key is given by the identifier of its public half.
  datatype IdentityExport = IdentityExport(
    boardOwner: Id,
    signingKey: Id,
    member: AuthorizedMember,
    inviteChain: seq<AuthorizedMember>,
    memberInfo: Option<AuthorizedMemberInfo>,
    boardName: Option<string>)

  datatype ImportError = EmptyToken | Undecodable | KeyMismatch | BadMemberSignature | BadChainSignature

  function KnownKeys(e: IdentityExport): set<Id> {
    {e.boardOwner} + set c | c in e.inviteChain :: c.id
  }

  /** Signed by its inviter, if the export says who that is. */
  predicate SignedIfKnown(known: set<Id>, m: AuthorizedMember) {
    m.invitedBy in known ==> m.invitedBy in m.signature
  }

  ghost predicate ChainConsistent(e: IdentityExport) {
    SignedIfKnown(KnownKeys(e), e.member) && forall c :: c in e.inviteChain ==> SignedIfKnown(KnownKeys(e), c)
  }

  method ValidateInviteChain(e: IdentityExport) returns (r: Result<(), ImportError>)
    ensures r.Ok? <==> ChainConsistent(e)
    ensures r.Ok? <==> forall m :: m in [e.member] + e.inviteChain ==>
                                     && (m.invitedBy == e.boardOwner ==> m.invitedBy in m.signature)
                                     && forall c :: c in e.inviteChain && c.id == m.invitedBy ==>
                                                      m.invitedBy in m.signature
    ensures r == Err(BadMemberSignature) <==> !SignedIfKnown(KnownKeys(e), e.member)
    ensures r.Err? ==> r.error in {BadMemberSignature, BadChainSignature}
  {
    var vkById: map<Id, Id> := map[e.boardOwner := e.boardOwner];
    for i := 0 to |e.inviteChain|
      invariant vkById.Keys == {e.boardOwner} + set c | c in e.inviteChain[..i] :: c.id
      invariant forall k :: k in vkById ==> vkById[k] == k
    {
      assert e.inviteChain[..i + 1] == e.inviteChain[..i] + [e.inviteChain[i]];
      vkById := vkById[e.inviteChain[i].id := e.inviteChain[i].id];
    }
    assert e.inviteChain[..|e.inviteChain|] == e.inviteChain;
    assert vkById.Keys == KnownKeys(e);
    var inviterId := e.member.invitedBy;
    if inviterId in vkById && vkById[inviterId] !in e.member.signature {
      return Err(BadMemberSignature);
    }
    for i := 0 to |e.inviteChain|
      invariant forall j :: 0 <= j < i ==> SignedIfKnown(KnownKeys(e), e.inviteChain[j])
    {
      var c := e.inviteChain[i];
      if c.invitedBy in vkById && vkById[c.invitedBy] !in c.signature {
        assert c in e.inviteChain && !SignedIfKnown(KnownKeys(e), c);
        return Err(BadChainSignature);
      }
    }
    return Ok(());
  }

  /** What importing a text yields, given how a payload decodes. */
  ghost function Imported(s: string, decode: string -> Option<IdentityExport>): Result<IdentityExport, ImportError> {
    if Stripped(s) == "" then Err(EmptyToken)
    else match decode(Stripped(s))
      case None => Err(Undecodable)
      case Some(e) =>
        if e.signingKey != e.member.id then Err(KeyMismatch)
        else if !SignedIfKnown(KnownKeys(e), e.member) then Err(BadMemberSignature)
        else if !ChainConsistent(e) then Err(BadChainSignature)
        else Ok(e)
  }

  method FromArmouredString(s: string, decode: string -> Option<IdentityExport>)
    returns (r: Result<IdentityExport, ImportError>)
    ensures r == Imported(s, decode)
    ensures r == Err(EmptyToken) <==> Stripped(s) == ""
    ensures r == Err(Undecodable) <==> Stripped(s) != "" && decode(Stripped(s)).None?
    ensures r == Err(KeyMismatch) <==>
              Stripped(s) != "" && decode(Stripped(s)).Some?
              && decode(Stripped(s)).value.signingKey != decode(Stripped(s)).value.member.id
    ensures r.Ok? ==> decode(Stripped(s)) == Some(r.value)
  {
    var payload := Stripped(s);
    if payload == "" { return Err(EmptyToken); }
    var decoded := decode(payload);
    if decoded.None? { return Err(Undecodable); }
    var e := decoded.value;
    if e.signingKey != e.member.id { return Err(KeyMismatch); }
    var valid := ValidateInviteChain(e);
    if valid.Err? { return Err(valid.error); }
    return Ok(e);
  }

  /** An export comes back from its armoured text, in any layout, exactly when its key is the member's and every
      signature it can check is good. */
  lemma ExportRoundTrip(e: IdentityExport, encoded: Base58, decode: string -> Option<IdentityExport>, layout: seq<Line>)
    requires encoded != "" && decode(encoded) == Some(e)
    requires (forall l :: l in layout ==> l.Valid()) && Payload(layout) == encoded
    ensures Imported(Armoured(encoded), decode) == Imported(Join(Texts(layout)), decode)
    ensures Imported(Armoured(encoded), decode) == Ok(e) <==> e.signingKey == e.member.id && ChainConsistent(e)
  {
    ArmourRoundTrip(encoded);
    AnyLayoutParses(layout);
  }

  /** Each record names the next as its inviter, and the last one names the owner. */
  ghost predicate Linked(owner: Id, me: AuthorizedMember, chain: seq<AuthorizedMember>)
    decreases chain
  {
    me.id != owner &&
    if chain == [] then me.invitedBy == owner else me.invitedBy == chain[0].id && Linked(owner, chain[0], chain[1..])
  }

  lemma {:induction false} LinkedChainIsSigned(owner: Id, known: set<Id>, me: AuthorizedMember,
                                               chain: seq<AuthorizedMember>)
    requires Linked(owner, me, chain) && owner in known && forall c :: c in chain ==> c.id in known
    ensures Cli.IsSignedChain(owner, me, chain)
      <==> SignedIfKnown(known, me) && forall c :: c in chain ==> SignedIfKnown(known, c)
    decreases chain
  {
    if chain != [] {
      assert chain == [chain[0]] + chain[1..];
      LinkedChainIsSigned(owner, known, chain[0], chain[1..]);
    }
  }

  /** Of an export whose chain leads to the owner, import checks exactly what rejoining needs. */
  lemma ImportedCanRejoin(e: IdentityExport)
    requires Linked(e.boardOwner, e.member, e.inviteChain)
    ensures ChainConsistent(e) <==> Cli.IsSignedChain(e.boardOwner, e.member, e.inviteChain)
  {
    LinkedChainIsSigned(e.boardOwner, KnownKeys(e), e.member, e.inviteChain);
  }
}
