/**
 * The part-to-message normalisation at the start of createLLM().generateContent:
 * a loop over the caller's parts that picks out a system prompt, turns the other
 * parts into user content blocks, and builds at most two chat messages.
 */
module PartNormalization {
  import opened Wrappers
  import opened Strings
  import opened Sequences

  /**
   * One element of `parts`: a string, an object whose `inlineData` is set,
   * any other non-nullish value (dropped), or null/undefined, on which reading
   * `part.inlineData` throws.
   */
  datatype Part =
    | TextPart(text: string)
    | InlineDataPart(mimeType: string, data: string)
    | OtherPart
    | NullishPart

  /** `{type: 'text', text}` or `{type: 'image_url', image_url: {url}}`. */
  datatype Block = TextBlock(text: string) | ImageBlock(url: string)

  /** A message's content: a bare string, or an array of blocks. */
  datatype Content = TextContent(text: string) | BlocksContent(blocks: seq<Block>)

  datatype Role = System | User

  datatype Message = Message(role: Role, content: Content)

  /** The TypeError raised when the part at `index` is null or undefined. */
  datatype NormalizeError = PartAccessError(index: nat)

  /** The substring that marks a string part as the system prompt. */
  const SystemMarker: string := "You are"

  const Base64Separator: string := ";base64,"

  /** A string part that can serve as the system prompt. */
  predicate IsSystemCandidate(p: Part) {
    p.TextPart? && Includes(p.text, SystemMarker)
  }

  predicate IsNullish(p: Part) {
    p.NullishPart?
  }

  /** The data URL written for an inline-data part. */
  function DataUrl(mimeType: string, data: string): string {
    "data:" + mimeType + Base64Separator + data
  }

  /** Splits a `data:<mime>;base64,<data>` URL at the first separator. */
  function ParseDataUrl(url: string): Option<(string, string)> {
    if !OccursAt(url, "data:", 0) then None
    else
      var rest := url[5..];
      match IndexOf(rest, Base64Separator)
      case None => None
      case Some(i) => Some((rest[..i], rest[i + |Base64Separator|..]))
  }

  /** The block a part contributes when it is not the system prompt. */
  function BlockOf(p: Part): Option<Block> {
    match p
    case TextPart(text) => Some(TextBlock(text))
    case InlineDataPart(mimeType, data) => Some(ImageBlock(DataUrl(mimeType, data)))
    case OtherPart => None
    case NullishPart => None
  }

  /** The blocks of all parts, in order. */
  function BlocksOf(ps: seq<Part>): seq<Block> {
    if ps == [] then []
    else
      (match BlockOf(ps[0]) case Some(b) => [b] case None => [])
      + BlocksOf(ps[1..])
  }

  /** The index of the part taken as the system prompt: the first candidate. */
  function SystemIndex(ps: seq<Part>): Option<nat> {
    FirstWhere(ps, IsSystemCandidate)
  }

  function SystemPrompt(ps: seq<Part>): Option<string> {
    match SystemIndex(ps)
    case None => None
    case Some(k) => Some(ps[k].text)
  }

  /** The user blocks: those of the parts before the system prompt, then those after it. */
  function UserBlocks(ps: seq<Part>): seq<Block> {
    match SystemIndex(ps)
    case None => BlocksOf(ps)
    case Some(k) => BlocksAround(ps, k)
  }

  /** The blocks of every part except the one at index `k`. */
  function BlocksAround(ps: seq<Part>, k: nat): seq<Block>
    requires k < |ps|
  {
    BlocksOf(ps[..k]) + BlocksOf(ps[k + 1..])
  }

  /** A lone text block collapses to its string; anything else stays an array. */
  function UserContent(blocks: seq<Block>): Content {
    if |blocks| == 1 && blocks[0].TextBlock? then TextContent(blocks[0].text)
    else BlocksContent(blocks)
  }

  /** The blocks a content value stands for. */
  function ContentBlocks(c: Content): seq<Block> {
    match c
    case TextContent(text) => [TextBlock(text)]
    case BlocksContent(blocks) => blocks
  }

  /** The system message for a found prompt, then the user message for a non-empty block list. */
  function Assemble(prompt: Option<string>, blocks: seq<Block>): seq<Message> {
    (match prompt
     case None => []
     case Some(text) => [Message(System, TextContent(text))])
    + (if blocks == [] then [] else [Message(User, UserContent(blocks))])
  }

  /** The messages generateContent sends for `ps`, when no part is nullish. */
  function Messages(ps: seq<Part>): seq<Message> {
    Assemble(SystemPrompt(ps), UserBlocks(ps))
  }

  /** The normalisation's outcome: the messages, or the TypeError of the first nullish part. */
  function Normalize(ps: seq<Part>): Result<seq<Message>, NormalizeError> {
    match FirstWhere(ps, IsNullish)
    case Some(i) => Failure(PartAccessError(i))
    case None => Success(Messages(ps))
  }

  // ---------------------------------------------------------------------------
  // Lemmas about the specification

  /** BlocksOf keeps the order of the parts: it distributes over concatenation. */
  lemma {:induction false} BlocksOfAppend(a: seq<Part>, b: seq<Part>)
    ensures BlocksOf(a + b) == BlocksOf(a) + BlocksOf(b)
  {
    if a == [] {
      assert a + b == b;
    } else {
      assert (a + b)[0] == a[0];
      assert (a + b)[1..] == a[1..] + b;
      BlocksOfAppend(a[1..], b);
    }
  }

  lemma BlocksOfSingleton(p: Part)
    ensures BlocksOf([p]) == match BlockOf(p) case Some(b) => [b] case None => []
  {
    assert [p][1..] == [];
  }

  lemma BlocksOfTakeDrop(ps: seq<Part>, n: nat)
    requires n <= |ps|
    ensures BlocksOf(ps) == BlocksOf(ps[..n]) + BlocksOf(ps[n..])
  {
    assert ps[..n] + ps[n..] == ps;
    BlocksOfAppend(ps[..n], ps[n..]);
  }

  lemma BlocksOfTakeSnoc(ps: seq<Part>, n: nat)
    requires n < |ps|
    ensures BlocksOf(ps[..n + 1]) == BlocksOf(ps[..n]) + BlocksOf([ps[n]])
  {
    assert ps[..n + 1] == ps[..n] + [ps[n]];
    BlocksOfAppend(ps[..n], [ps[n]]);
  }

  /** The blocks of `ps` around part `i`: those before it, its own, those after it. */
  lemma BlocksOfSplit(ps: seq<Part>, i: nat)
    requires i < |ps|
    ensures BlocksOf(ps) == BlocksOf(ps[..i]) + BlocksOf([ps[i]]) + BlocksOf(ps[i + 1..])
  {
    BlocksOfTakeDrop(ps, i + 1);
    BlocksOfTakeSnoc(ps, i);
  }

  /** A marked string is never empty, so `systemPrompt === ''` means none was found yet. */
  lemma CandidateNonEmpty(p: Part)
    requires IsSystemCandidate(p)
    ensures p.text != ""
  {
  }

  /** One more part: how the system prompt and the user blocks grow. */
  lemma UserBlocksSnoc(ps: seq<Part>, p: Part)
    ensures SystemIndex(ps + [p])
         == if SystemIndex(ps).Some? then SystemIndex(ps)
            else if IsSystemCandidate(p) then Some(|ps|)
            else None
    ensures SystemPrompt(ps + [p])
         == if SystemPrompt(ps).Some? then SystemPrompt(ps)
            else if IsSystemCandidate(p) then Some(p.text)
            else None
    ensures UserBlocks(ps + [p])
         == if SystemIndex(ps).None? && IsSystemCandidate(p) then UserBlocks(ps)
            else UserBlocks(ps) + BlocksOf([p])
  {
    FirstWhereSnoc(ps, p, IsSystemCandidate);
    var t := ps + [p];
    match SystemIndex(ps)
    case Some(k) =>
      assert t[k] == ps[k];
      assert t[..k] == ps[..k];
      assert t[k + 1..] == ps[k + 1..] + [p];
      BlocksOfAppend(ps[k + 1..], [p]);
    case None =>
      if IsSystemCandidate(p) {
        assert t[..|ps|] == ps;
        assert t[|ps| + 1..] == [];
      } else {
        BlocksOfAppend(ps, [p]);
      }
  }

  /** The block of part `i` sits at index |BlocksOf(ps[..i])| of BlocksOf(ps). */
  lemma BlockPosition(ps: seq<Part>, i: nat)
    requires i < |ps| && BlockOf(ps[i]).Some?
    ensures |BlocksOf(ps[..i])| < |BlocksOf(ps)|
    ensures BlocksOf(ps)[|BlocksOf(ps[..i])|] == BlockOf(ps[i]).value
  {
    BlocksOfSplit(ps, i);
    BlocksOfSingleton(ps[i]);
  }

  /** Blocks come out in the order of their parts: a later part's block has a larger index. */
  lemma BlockOrder(ps: seq<Part>, i: nat, j: nat)
    requires i < j <= |ps| && BlockOf(ps[i]).Some?
    ensures |BlocksOf(ps[..i])| < |BlocksOf(ps[..j])|
  {
    assert ps[..j][..i] == ps[..i];
    BlocksOfSplit(ps[..j], i);
    BlocksOfSingleton(ps[i]);
  }

  lemma BlockInBlocksOf(ps: seq<Part>, i: nat)
    requires i < |ps| && BlockOf(ps[i]).Some?
    ensures BlockOf(ps[i]).value in BlocksOf(ps)
  {
    BlockPosition(ps, i);
  }

  /** A part that is not the system prompt and yields a block puts that block among the user blocks. */
  lemma UserBlockOfPart(ps: seq<Part>, i: nat)
    requires i < |ps| && SystemIndex(ps) != Some(i) && BlockOf(ps[i]).Some?
    ensures BlockOf(ps[i]).value in UserBlocks(ps)
  {
    match SystemIndex(ps)
    case None =>
      BlockInBlocksOf(ps, i);
    case Some(k) =>
      if i < k {
        assert ps[..k][i] == ps[i];
        BlockInBlocksOf(ps[..k], i);
      } else {
        assert ps[k + 1..][i - k - 1] == ps[i];
        BlockInBlocksOf(ps[k + 1..], i - k - 1);
      }
  }

  /** The system prompt is the first string part containing the marker, and only such a part. */
  lemma SystemPromptIsFirstCandidate(ps: seq<Part>, k: nat)
    requires k < |ps|
    ensures SystemIndex(ps) == Some(k)
        <==> IsSystemCandidate(ps[k]) && forall j :: 0 <= j < k ==> !IsSystemCandidate(ps[j])
  {
    if IsSystemCandidate(ps[k]) && forall j :: 0 <= j < k ==> !IsSystemCandidate(ps[j]) {
      FirstWhereIs(ps, IsSystemCandidate, Some(k));
    }
  }

  /** A later string part containing the marker becomes an ordinary user text block. */
  lemma LaterCandidateIsUserText(ps: seq<Part>, j: nat)
    requires j < |ps| && IsSystemCandidate(ps[j])
    requires SystemIndex(ps).Some? && SystemIndex(ps).value < j
    ensures TextBlock(ps[j].text) in UserBlocks(ps)
  {
    UserBlockOfPart(ps, j);
  }

  /** An inline-data part becomes an image block holding its data URL. */
  lemma InlineDataIsImage(ps: seq<Part>, i: nat)
    requires i < |ps| && ps[i].InlineDataPart?
    ensures ImageBlock("data:" + ps[i].mimeType + ";base64," + ps[i].data) in UserBlocks(ps)
  {
    UserBlockOfPart(ps, i);
  }

  /** No separator starts inside a MIME type that does not contain one. */
  lemma SeparatorNotInside(mimeType: string, data: string, j: nat)
    requires j + |Base64Separator| <= |mimeType| && !OccursAt(mimeType, Base64Separator, j)
    ensures !OccursAt(mimeType + Base64Separator + data, Base64Separator, j)
  {
    var rest := mimeType + Base64Separator + data;
    assert rest[j..j + 8] == mimeType[j..j + 8];
  }

  /** No separator straddles the end of the MIME type: `;` is only its first character. */
  lemma SeparatorNotStraddling(mimeType: string, data: string, j: nat)
    requires j < |mimeType| < j + |Base64Separator|
    ensures !OccursAt(mimeType + Base64Separator + data, Base64Separator, j)
  {
    var rest := mimeType + Base64Separator + data;
    var m := |mimeType|;
    assert rest[m] == ';';
    if j + 8 <= |rest| {
      assert rest[j..j + 8][m - j] == rest[m];
      assert Base64Separator[m - j] != ';';
    }
  }

  /** The first separator after a separator-free MIME type is the one the data URL adds. */
  lemma SeparatorFirstAt(mimeType: string, data: string)
    requires forall j: nat :: !OccursAt(mimeType, Base64Separator, j)
    ensures IndexOf(mimeType + Base64Separator + data, Base64Separator) == Some(|mimeType|)
  {
    var rest := mimeType + Base64Separator + data;
    var m := |mimeType|;
    assert rest[m..m + 8] == Base64Separator;
    forall j: nat | j < m ensures !OccursAt(rest, Base64Separator, j) {
      if j + 8 <= m {
        SeparatorNotInside(mimeType, data, j);
      } else {
        SeparatorNotStraddling(mimeType, data, j);
      }
    }
    assert OccursAt(rest, Base64Separator, m);
  }

  /** A data URL starts with the `data:` scheme, followed by the MIME type, separator and payload. */
  lemma DataUrlShape(mimeType: string, data: string)
    ensures OccursAt(DataUrl(mimeType, data), "data:", 0)
    ensures DataUrl(mimeType, data)[5..] == mimeType + Base64Separator + data
  {
    var url := DataUrl(mimeType, data);
    assert url[..5] == "data:";
  }

  /** The data URL can be split back into its MIME type and payload. */
  lemma DataUrlRoundTrip(mimeType: string, data: string)
    requires !Includes(mimeType, Base64Separator)
    ensures ParseDataUrl(DataUrl(mimeType, data)) == Some((mimeType, data))
  {
    IncludesIff(mimeType, Base64Separator);
    DataUrlShape(mimeType, data);
    var rest := mimeType + Base64Separator + data;
    SeparatorFirstAt(mimeType, data);
    assert rest[..|mimeType|] == mimeType;
    assert rest[|mimeType| + 8..] == data;
  }

  /** Taking out a part that yields no block leaves the blocks unchanged. */
  lemma DropBlockless(ps: seq<Part>, i: nat)
    requires i < |ps| && BlockOf(ps[i]).None?
    ensures BlocksOf(ps[..i] + ps[i + 1..]) == BlocksOf(ps)
  {
    BlocksOfSplit(ps, i);
    BlocksOfSingleton(ps[i]);
    BlocksOfAppend(ps[..i], ps[i + 1..]);
  }

  lemma DropOtherNoPrompt(ps: seq<Part>, i: nat)
    requires i < |ps| && ps[i].OtherPart? && SystemIndex(ps).None?
    ensures SystemPrompt(ps[..i] + ps[i + 1..]) == SystemPrompt(ps)
    ensures UserBlocks(ps[..i] + ps[i + 1..]) == UserBlocks(ps)
  {
    FirstWhereRemoveNone(ps, i, IsSystemCandidate);
    DropBlockless(ps, i);
  }

  lemma DropOtherAfterPrompt(ps: seq<Part>, i: nat, k: nat)
    requires k < i < |ps| && ps[i].OtherPart? && SystemIndex(ps) == Some(k)
    ensures SystemPrompt(ps[..i] + ps[i + 1..]) == SystemPrompt(ps)
    ensures UserBlocks(ps[..i] + ps[i + 1..]) == UserBlocks(ps)
  {
    FirstWhereRemoveAfter(ps, i, IsSystemCandidate, k);
    BlocksDropAfter(ps, i, k);
  }

  /** Taking out a blockless part after index `k` leaves the blocks on either side of `k` unchanged. */
  lemma BlocksDropAfter(ps: seq<Part>, i: nat, k: nat)
    requires k < i < |ps| && BlockOf(ps[i]).None?
    ensures BlocksAround(ps[..i] + ps[i + 1..], k) == BlocksAround(ps, k)
  {
    RemoveAfter(ps, i, k);
    assert ps[k + 1..][i - k - 1] == ps[i];
    DropBlockless(ps[k + 1..], i - k - 1);
  }

  lemma DropOtherBeforePrompt(ps: seq<Part>, i: nat, k: nat)
    requires i < k < |ps| && ps[i].OtherPart? && SystemIndex(ps) == Some(k)
    ensures SystemPrompt(ps[..i] + ps[i + 1..]) == SystemPrompt(ps)
    ensures UserBlocks(ps[..i] + ps[i + 1..]) == UserBlocks(ps)
  {
    var q := ps[..i] + ps[i + 1..];
    FirstWhereRemoveBefore(ps, i, IsSystemCandidate, k);
    assert SystemIndex(q) == Some(k - 1);
    assert q[k - 1] == ps[k];
    BlocksDropBefore(ps, i, k);
  }

  /** Taking out a blockless part before index `k` leaves the blocks on either side of `k` unchanged. */
  lemma BlocksDropBefore(ps: seq<Part>, i: nat, k: nat)
    requires i < k < |ps| && BlockOf(ps[i]).None?
    ensures BlocksAround(ps[..i] + ps[i + 1..], k - 1) == BlocksAround(ps, k)
  {
    RemoveBefore(ps, i, k);
    assert ps[..k][i] == ps[i];
    DropBlockless(ps[..k], i);
  }

  /** Parts that are neither strings nor carry inline data leave the messages unchanged. */
  lemma OtherPartDropped(ps: seq<Part>, i: nat)
    requires i < |ps| && ps[i].OtherPart?
    ensures Messages(ps[..i] + ps[i + 1..]) == Messages(ps)
  {
    match SystemIndex(ps)
    case None => DropOtherNoPrompt(ps, i);
    case Some(k) =>
      if k < i { DropOtherAfterPrompt(ps, i, k); } else { DropOtherBeforePrompt(ps, i, k); }
  }

  /** Collapsing to a bare string loses nothing. */
  lemma UserContentLossless(blocks: seq<Block>)
    ensures ContentBlocks(UserContent(blocks)) == blocks
    ensures UserContent(blocks).TextContent? <==> |blocks| == 1 && blocks[0].TextBlock?
  {
  }

  /**
   * At most two messages: the system message exactly when a system prompt was
   * found, and first; the user message exactly when there is a user block, and last.
   */
  lemma MessagesShape(ps: seq<Part>)
    ensures |Messages(ps)| <= 2
    ensures SystemPrompt(ps).Some?
        <==> |Messages(ps)| > 0 && Messages(ps)[0].role == System
    ensures SystemPrompt(ps).Some?
        ==> Messages(ps)[0] == Message(System, TextContent(SystemPrompt(ps).value))
    ensures UserBlocks(ps) != []
        <==> |Messages(ps)| > 0 && Messages(ps)[|Messages(ps)| - 1].role == User
    ensures UserBlocks(ps) != []
        ==> ContentBlocks(Messages(ps)[|Messages(ps)| - 1].content) == UserBlocks(ps)
  {
    UserContentLossless(UserBlocks(ps));
  }

  lemma HelloIsNoCandidate()
    ensures !IsSystemCandidate(TextPart("Hello"))
  {
  }

  lemma AssistantIsCandidate()
    ensures IsSystemCandidate(TextPart("You are a helpful assistant"))
  {
    var text := "You are a helpful assistant";
    assert OccursAt(text, SystemMarker, 0);
    IsPrefixIff(SystemMarker, text);
  }

  lemma ExampleDataUrl()
    ensures DataUrl("image/png", "abc") == "data:image/png;base64,abc"
  {
  }

  /** A system string followed by a plain string: a system message, then a bare-string user message. */
  lemma SystemThenUser(system: string, text: string)
    requires IsSystemCandidate(TextPart(system)) && !IsSystemCandidate(TextPart(text))
    ensures Normalize([TextPart(system), TextPart(text)])
         == Success([Message(System, TextContent(system)), Message(User, TextContent(text))])
  {
    var ps := [TextPart(system), TextPart(text)];
    FirstWhereIs(ps, IsSystemCandidate, Some(0));
    FirstWhereIs(ps, IsNullish, None);
    assert ps[..0] == [] && ps[1..] == [TextPart(text)];
    BlocksOfSingleton(TextPart(text));
    assert UserBlocks(ps) == [TextBlock(text)];
    assert Messages(ps) == Assemble(Some(system), [TextBlock(text)]);
    assert Messages(ps) == [Message(System, TextContent(system)), Message(User, TextContent(text))];
    assert Normalize(ps) == Success(Messages(ps));
  }

  /** A plain string and an image: no system message, and a two-block user array. */
  lemma TextAndImage(text: string, mimeType: string, data: string)
    requires !IsSystemCandidate(TextPart(text))
    ensures Normalize([TextPart(text), InlineDataPart(mimeType, data)])
         == Success([Message(User, BlocksContent([TextBlock(text), ImageBlock(DataUrl(mimeType, data))]))])
  {
    var ps := [TextPart(text), InlineDataPart(mimeType, data)];
    FirstWhereIs(ps, IsSystemCandidate, None);
    FirstWhereIs(ps, IsNullish, None);
    assert ps[1..] == [ps[1]];
    BlocksOfSingleton(ps[1]);
    var blocks := [TextBlock(text), ImageBlock(DataUrl(mimeType, data))];
    assert UserBlocks(ps) == blocks;
    assert UserContent(blocks) == BlocksContent(blocks);
    assert Messages(ps) == Assemble(None, blocks);
    assert Messages(ps) == [Message(User, BlocksContent(blocks))];
    assert Normalize(ps) == Success(Messages(ps));
  }

  lemma SystemThenUserExample()
    ensures Normalize([TextPart("You are a helpful assistant"), TextPart("Hello")])
         == Success([Message(System, TextContent("You are a helpful assistant")),
                     Message(User, TextContent("Hello"))])
  {
    AssistantIsCandidate();
    HelloIsNoCandidate();
    SystemThenUser("You are a helpful assistant", "Hello");
  }

  lemma TextAndImageExample()
    ensures Normalize([TextPart("Hello"), InlineDataPart("image/png", "abc")])
         == Success([Message(User, BlocksContent([TextBlock("Hello"), ImageBlock("data:image/png;base64,abc")]))])
  {
    HelloIsNoCandidate();
    ExampleDataUrl();
    TextAndImage("Hello", "image/png", "abc");
  }

  // ---------------------------------------------------------------------------
  // The loop itself

  /**
   * The loop's state after the parts `ps`: the system prompt so far ("" while none
   * is chosen) and the user blocks so far. A proof device for GenerateMessages.
   */
  ghost function LoopState(ps: seq<Part>): (string, seq<Block>)
    decreases |ps|
  {
    if |ps| == 0 then ("", [])
    else
      var (prompt, blocks) := LoopState(ps[..|ps| - 1]);
      match ps[|ps| - 1]
      case TextPart(text) =>
        if prompt == "" && Includes(text, SystemMarker) then (text, blocks)
        else (prompt, blocks + [TextBlock(text)])
      case InlineDataPart(mimeType, data) => (prompt, blocks + [ImageBlock(DataUrl(mimeType, data))])
      case OtherPart => (prompt, blocks)
      case NullishPart => (prompt, blocks)
  }

  /** The loop's state agrees with the index-based definition of prompt and blocks. */
  lemma {:induction false} LoopStateMatchesSpec(ps: seq<Part>)
    ensures LoopState(ps).0 == "" <==> SystemPrompt(ps).None?
    ensures SystemPrompt(ps).Some? ==> LoopState(ps).0 == SystemPrompt(ps).value
    ensures LoopState(ps).1 == UserBlocks(ps)
  {
    if |ps| > 0 {
      var init, p := ps[..|ps| - 1], ps[|ps| - 1];
      assert ps == init + [p];
      LoopStateMatchesSpec(init);
      UserBlocksSnoc(init, p);
      BlocksOfSingleton(p);
    }
  }

  /** With no nullish part, the messages built from the final loop state are the normalised result. */
  lemma NormalizeFromLoopState(ps: seq<Part>, prompt: string, blocks: seq<Block>)
    requires forall j :: 0 <= j < |ps| ==> !IsNullish(ps[j])
    requires (prompt, blocks) == LoopState(ps)
    ensures Normalize(ps) == Success(Assemble(if prompt == "" then None else Some(prompt), blocks))
  {
    FirstWhereIs(ps, IsNullish, None);
    LoopStateMatchesSpec(ps);
  }

  /** The first null or undefined part decides the error, whatever follows it. */
  lemma NormalizeAtNullish(ps: seq<Part>, i: nat)
    requires i < |ps| && IsNullish(ps[i])
    requires forall j :: 0 <= j < i ==> !IsNullish(ps[j])
    ensures Normalize(ps) == Failure(PartAccessError(i))
  {
    FirstWhereIs(ps, IsNullish, Some(i));
  }

  /** The body of generateContent up to the request: the loop and the message building. */
  method GenerateMessages(parts: seq<Part>) returns (r: Result<seq<Message>, NormalizeError>)
    ensures r == Normalize(parts)
  {
    var systemPrompt := "";
    var userContent: seq<Block> := [];
    for i := 0 to |parts|
      invariant forall j :: 0 <= j < i ==> !IsNullish(parts[j])
      invariant (systemPrompt, userContent) == LoopState(parts[..i])
    {
      assert parts[..i + 1][..i] == parts[..i];
      match parts[i]
      case TextPart(text) =>
        if systemPrompt == "" && Includes(text, SystemMarker) {
          systemPrompt := text;
        } else {
          userContent := userContent + [TextBlock(text)];
        }
      case InlineDataPart(mimeType, data) =>
        userContent := userContent + [ImageBlock(DataUrl(mimeType, data))];
      case OtherPart =>
      case NullishPart =>
        NormalizeAtNullish(parts, i);
        return Failure(PartAccessError(i));
    }
    assert parts[..|parts|] == parts;
    NormalizeFromLoopState(parts, systemPrompt, userContent);

    var messages: seq<Message> := [];
    if systemPrompt != "" {
      messages := messages + [Message(System, TextContent(systemPrompt))];
    }
    if |userContent| > 0 {
      messages := messages + [Message(User, UserContent(userContent))];
    }
    assert messages == Assemble(if systemPrompt == "" then None else Some(systemPrompt), userContent);
    return Success(messages);
  }
}
