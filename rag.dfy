/** The self-contained logic of RAG.py, a console question-answering script
    over a PDF: choosing the PDF, writing its chunks to the vector store in
    batches, telling questions from exit words, and assembling the prompt
    from the retrieved passages.

    The vector store, the embedder, the PDF loader and splitter and the chat
    model are outside the model: the chunks are an input sequence, an insert
    into the store is recorded as the batch it writes, and retrieval is a
    function parameter. Console input is a sequence of lines; when it runs
    out, the loop that reads it stops. */
module Rag {

  /** A chunk of the PDF as the store returns it; only its text is used. */
  datatype Document = Document(pageContent: string)

  function Min(x: int, y: int): int {
    if x <= y then x else y
  }

  // ---------------------------------------------------------------------------
  // Writing the chunks to the store in batches
  // ---------------------------------------------------------------------------

  /** Chunks written to the store per insert (`batch_size`). */
  const BatchSize: nat := 5

  /** The number of inserts for `total` chunks: total / 5 rounded up. */
  function BatchCount(total: nat): nat {
    (total + BatchSize - 1) / BatchSize
  }

  /** The batches written, one after the other. */
  function Flatten<T>(batches: seq<seq<T>>): seq<T>
    decreases |batches|
  {
    if batches == [] then [] else batches[0] + Flatten(batches[1..])
  }

  /** The batches `splits[i:i+5]` for i = from, from + 5, ... while i is
      below the number of chunks, each clamped at the end. */
  function Batches<T>(splits: seq<T>, from: nat): seq<seq<T>>
    decreases |splits| - from
  {
    if from >= |splits| then []
    else [splits[from .. Min(from + BatchSize, |splits|)]] + Batches(splits, from + BatchSize)
  }

  /** The progress reports after those batches: the chunks written so far. */
  function Progress(total: nat, from: nat): seq<nat>
    decreases total - from
  {
    if from >= total then [] else [Min(from + BatchSize, total)] + Progress(total, from + BatchSize)
  }

  /** The batches from `from` on are the chunks from `from` on, cut into
      consecutive pieces: concatenated, they give those chunks back. */
  lemma {:induction false} BatchesFlatten<T>(splits: seq<T>, from: nat)
    requires from <= |splits|
    ensures Flatten(Batches(splits, from)) == splits[from..]
    decreases |splits| - from
  {
    if from < |splits| {
      var next := Min(from + BatchSize, |splits|);
      BatchesFlatten(splits, next);
      if next == |splits| {
        assert Batches(splits, from + BatchSize) == [];
      }
      assert splits[from..] == splits[from..next] + splits[next..];
    }
  }

  /** Batch b starts at chunk from + 5 b and holds the next five chunks, or
      fewer at the end; there are ceil((len - from) / 5) batches. */
  lemma {:induction false} BatchesShape<T>(splits: seq<T>, from: nat)
    ensures |Batches(splits, from)| == (if from >= |splits| then 0 else BatchCount(|splits| - from))
    ensures forall b :: 0 <= b < |Batches(splits, from)| ==>
              && from + BatchSize * b < |splits|
              && Batches(splits, from)[b] == splits[from + BatchSize * b .. Min(from + BatchSize * b + BatchSize, |splits|)]
    decreases |splits| - from
  {
    if from < |splits| {
      BatchesShape(splits, from + BatchSize);
      var rest := Batches(splits, from + BatchSize);
      assert forall b :: 1 <= b < |Batches(splits, from)| ==> Batches(splits, from)[b] == rest[b - 1];
    }
  }

  /** The reports count the chunks written after each batch, rise strictly
      and end at the total. */
  lemma {:induction false} ProgressShape(total: nat, from: nat)
    ensures |Progress(total, from)| == (if from >= total then 0 else BatchCount(total - from))
    ensures forall b :: 0 <= b < |Progress(total, from)| ==>
              Progress(total, from)[b] == Min(from + BatchSize * (b + 1), total)
    ensures forall b :: 0 < b < |Progress(total, from)| ==>
              Progress(total, from)[b - 1] < Progress(total, from)[b]
    ensures |Progress(total, from)| > 0 ==> Progress(total, from)[|Progress(total, from)| - 1] == total
    decreases total - from
  {
    if from < total {
      ProgressShape(total, from + BatchSize);
      var rest := Progress(total, from + BatchSize);
      assert forall b :: 1 <= b < |Progress(total, from)| ==> Progress(total, from)[b] == rest[b - 1];
    }
  }

  /** Batching from the first chunk cuts `splits` into consecutive pieces of
      at most five, in order, with nothing missing or repeated; the reports
      count the chunks written so far, rise strictly and end at the number of
      chunks. */
  lemma BatchingFromStart<T>(splits: seq<T>)
    ensures |Batches(splits, 0)| == |Progress(|splits|, 0)| == BatchCount(|splits|)
    ensures forall b :: 0 <= b < |Batches(splits, 0)| ==>
              Batches(splits, 0)[b] == splits[BatchSize * b .. Min(BatchSize * b + BatchSize, |splits|)]
    ensures Flatten(Batches(splits, 0)) == splits
    ensures forall b :: 0 <= b < |Progress(|splits|, 0)| ==>
              Progress(|splits|, 0)[b] == Min(BatchSize * (b + 1), |splits|)
    ensures forall b :: 0 < b < |Progress(|splits|, 0)| ==>
              Progress(|splits|, 0)[b - 1] < Progress(|splits|, 0)[b]
    ensures |Progress(|splits|, 0)| > 0 ==> Progress(|splits|, 0)[|Progress(|splits|, 0)| - 1] == |splits|
  {
    BatchesFlatten(splits, 0);
    BatchesShape(splits, 0);
    ProgressShape(|splits|, 0);
  }

  /** Twelve chunks are written as 5, 5 and 2, reported as 5, 10 and 12. */
  lemma TwelveChunks()
    ensures |Batches(seq(12, k => k), 0)| == 3
    ensures var b := Batches(seq(12, k => k), 0); |b[0]| == 5 && |b[1]| == 5 && |b[2]| == 2
    ensures Progress(12, 0) == [5, 10, 12]
  {
    BatchesShape(seq(12, k => k), 0);
  }

  /** The batching loop (`for i in range(0, len(splits), batch_size)`). Each
      insert writes `splits[i:i+5]`, clamped at the end, and is followed by the
      progress report `i + len(batch)`; the result is the batches and reports
      that `BatchingFromStart` describes. */
  method IndexSplits<T>(splits: seq<T>) returns (batches: seq<seq<T>>, reports: seq<nat>)
    ensures batches == Batches(splits, 0) && reports == Progress(|splits|, 0)
  {
    batches, reports := [], [];
    var i := 0;
    while i < |splits|
      invariant batches + Batches(splits, i) == Batches(splits, 0)
      invariant reports + Progress(|splits|, i) == Progress(|splits|, 0)
    {
      var batch := splits[i .. Min(i + BatchSize, |splits|)];
      assert Batches(splits, i) == [batch] + Batches(splits, i + BatchSize);
      assert Progress(|splits|, i) == [i + |batch|] + Progress(|splits|, i + BatchSize);
      assert batches + Batches(splits, i) == (batches + [batch]) + Batches(splits, i + BatchSize);
      assert reports + Progress(|splits|, i) == (reports + [i + |batch|]) + Progress(|splits|, i + BatchSize);
      batches := batches + [batch];
      reports := reports + [i + |batch|];
      i := i + BatchSize;
    }
  }

  /** What reaching the store does with the chunks: when the store directory
      already exists it is reused and nothing is written; otherwise it is
      built by the batching loop. */
  method OpenStore<T>(storeExists: bool, splits: seq<T>) returns (batches: seq<seq<T>>, reports: seq<nat>)
    ensures storeExists ==> batches == [] && reports == []
    ensures !storeExists ==> batches == Batches(splits, 0) && reports == Progress(|splits|, 0)
    ensures !storeExists ==> Flatten(batches) == splits && |batches| == |reports| == BatchCount(|splits|)
    ensures !storeExists && |reports| > 0 ==> reports[|reports| - 1] == |splits|
  {
    if storeExists {
      batches, reports := [], [];
    } else {
      batches, reports := IndexSplits(splits);
      BatchingFromStart(splits);
    }
  }

  // ---------------------------------------------------------------------------
  // Reading a question
  // ---------------------------------------------------------------------------

  /** Lower-casing of one character, on ASCII letters. */
  function LowerChar(c: char): char {
    if 'A' <= c <= 'Z' then (c as int - 'A' as int + 'a' as int) as char else c
  }

  /** `str.lower()`, on ASCII letters: the result has the same length and no
      capital letter left; each capital becomes the small letter of the same
      place in the alphabet, and every other character is kept. */
  function Lower(s: string): (r: string)
    ensures |r| == |s|
    ensures forall k :: 0 <= k < |r| ==> !('A' <= r[k] <= 'Z')
    ensures forall k :: 0 <= k < |s| && !('A' <= s[k] <= 'Z') ==> r[k] == s[k]
    ensures forall k :: 0 <= k < |s| && 'A' <= s[k] <= 'Z' ==>
              'a' <= r[k] <= 'z' && r[k] as int - 'a' as int == s[k] as int - 'A' as int
  {
    seq(|s|, k requires 0 <= k < |s| => LowerChar(s[k]))
  }

  /** Lower-casing twice is lower-casing once. */
  lemma LowerIdempotent(s: string)
    ensures Lower(Lower(s)) == Lower(s)
  {
  }

  /** The words that end the conversation, in their lower-case form. */
  const ExitWords: seq<string> := ["q", "exit", "退出"]

  /** What the session loop does with one line of input. */
  datatype Action = Skip | Quit | Ask(question: string)

  /** An empty line is skipped, a line whose lower-cased form is an exit word
      ends the session, and any other line is asked as it was typed. */
  function Classify(line: string): (a: Action)
    ensures a == Skip <==> line == []
    ensures a == Quit <==> line != [] && Lower(line) in ExitWords
    ensures a.Ask? ==> a.question == line
  {
    if line == [] then Skip
    else if Lower(line) in ExitWords then Quit
    else Ask(line)
  }

  /** Two strings equal up to the case of ASCII letters. */
  predicate SameIgnoringCase(s: string, t: string) {
    |s| == |t| && forall k :: 0 <= k < |s| ==> LowerChar(s[k]) == LowerChar(t[k])
  }

  /** Whether a line ends the session depends only on its letters, not their
      case: "Q", "EXIT" and "Exit" end it as "q" and "exit" do. */
  lemma QuitIgnoresCase(s: string, t: string)
    requires SameIgnoringCase(s, t)
    ensures Classify(s) == Quit <==> Classify(t) == Quit
  {
    assert Lower(s) == Lower(t);
  }

  /** The exit words typed in capitals, and a word that is not one. */
  lemma ExitWordExamples()
    ensures Classify("Q") == Quit && Classify("EXIT") == Quit && Classify("eXiT") == Quit
    ensures Classify("退出") == Quit
    ensures Classify("quit") == Ask("quit") && Classify(" ") == Ask(" ")
  {
    assert Lower("Q") == "q";
    assert Lower("EXIT") == "exit";
    assert Lower("eXiT") == "exit";
    assert Lower("退出") == "退出";
    assert Lower("quit") == "quit" && "quit" != "exit" by {
      assert "quit"[0] != "exit"[0];
    }
    assert Lower(" ") == " ";
  }

  // ---------------------------------------------------------------------------
  // Context and prompt
  // ---------------------------------------------------------------------------

  /** `sep.join(parts)`. */
  function Join(parts: seq<string>, sep: string): string
    decreases |parts|
  {
    if |parts| == 0 then ""
    else if |parts| == 1 then parts[0]
    else parts[0] + sep + Join(parts[1..], sep)
  }

  /** Where in `Join(parts, sep)` the part of index k starts: after every
      earlier part and one separator after each. */
  function PartStart(parts: seq<string>, sep: string, k: nat): nat
    requires k < |parts|
    decreases k
  {
    if k == 0 then 0 else |parts[0]| + |sep| + PartStart(parts[1..], sep, k - 1)
  }

  /** Slicing the back part of a concatenation. */
  lemma SliceAfter(x: string, y: string, i: nat, j: nat)
    requires i <= j <= |y|
    ensures (x + y)[|x| + i .. |x| + j] == y[i..j]
  {
  }

  /** Every part appears verbatim in the joined text at its place, in order:
      nothing is dropped, merged or deduplicated. */
  lemma {:induction false} JoinPart(parts: seq<string>, sep: string, k: nat)
    requires k < |parts|
    ensures PartStart(parts, sep, k) + |parts[k]| <= |Join(parts, sep)|
    ensures Join(parts, sep)[PartStart(parts, sep, k) .. PartStart(parts, sep, k) + |parts[k]|] == parts[k]
    decreases k
  {
    if |parts| > 1 {
      var head := parts[0] + sep;
      var rest := Join(parts[1..], sep);
      assert Join(parts, sep) == head + rest;
      if k > 0 {
        JoinPart(parts[1..], sep, k - 1);
        var s := PartStart(parts[1..], sep, k - 1);
        assert PartStart(parts, sep, k) == |head| + s;
        assert parts[1..][k - 1] == parts[k];
        SliceAfter(head, rest, s, s + |parts[k]|);
      } else {
        assert (parts[0] + (sep + rest))[..|parts[0]|] == parts[0];
        assert head + rest == parts[0] + (sep + rest);
      }
    }
  }

  /** Between two consecutive parts stands exactly one separator. */
  lemma {:induction false} JoinSeparator(parts: seq<string>, sep: string, k: nat)
    requires k + 1 < |parts|
    ensures PartStart(parts, sep, k + 1) == PartStart(parts, sep, k) + |parts[k]| + |sep|
    ensures PartStart(parts, sep, k + 1) <= |Join(parts, sep)|
    ensures Join(parts, sep)[PartStart(parts, sep, k) + |parts[k]| .. PartStart(parts, sep, k + 1)] == sep
    decreases k
  {
    var head := parts[0] + sep;
    var rest := Join(parts[1..], sep);
    assert Join(parts, sep) == head + rest;
    if k > 0 {
      JoinSeparator(parts[1..], sep, k - 1);
      JoinPart(parts[1..], sep, k);
      var s := PartStart(parts[1..], sep, k - 1) + |parts[k]|;
      SliceAfter(head, rest, s, s + |sep|);
    }
  }

  /** The joined text is exactly as long as the parts and one separator
      between each two of them. */
  lemma {:induction false} JoinLength(parts: seq<string>, sep: string)
    requires |parts| > 0
    ensures |Join(parts, sep)| == PartStart(parts, sep, |parts| - 1) + |parts[|parts| - 1]|
    decreases |parts|
  {
    if |parts| > 1 {
      JoinLength(parts[1..], sep);
    }
  }

  /** The text of each retrieved passage, in retrieval order. */
  function PageContents(docs: seq<Document>): seq<string> {
    seq(|docs|, k requires 0 <= k < |docs| => docs[k].pageContent)
  }

  /** The separator between passages: a blank line. */
  const PassageSeparator: string := "\n\n"

  /** The context handed to the model: the passages joined by blank lines. */
  function Context(docs: seq<Document>): string {
    Join(PageContents(docs), PassageSeparator)
  }

  /** Each retrieved passage appears verbatim in the context, at its place
      in retrieval order. */
  lemma ContextHoldsPassage(docs: seq<Document>, k: nat)
    requires k < |docs|
    ensures var start := PartStart(PageContents(docs), PassageSeparator, k);
            start + |docs[k].pageContent| <= |Context(docs)| &&
            Context(docs)[start .. start + |docs[k].pageContent|] == docs[k].pageContent
  {
    JoinPart(PageContents(docs), PassageSeparator, k);
  }

  /** The indentation of the prompt's lines (20 spaces). */
  const Indent: string := "                    "

  /** The prompt text before the context. */
  const PromptHead: string :=
    "\n"
    + Indent + "你是一位专家。请根据提供的【参考资料】进行符合规则的回答。" + "\n"
    + Indent + "【规则】：" + "\n"
    + Indent + "1. 必须优先基于【参考资料】中的内容回答。" + "\n"
    + Indent + "2. 请尽量保留原始的专业术语。" + "\n"
    + Indent + "3. 如果资料内容不足以回答问题，可以结合专业知识进行补充，但必须明确标注“资料中未提及，以下为补充知识”。" + "\n"
    + Indent + "4. 回答逻辑要清晰，必要时可以使用Markdown的列表或表格。" + "\n"
    + "\n"
    + Indent + "【参考资料】：" + "\n"
    + Indent

  /** The prompt text between the context and the question. */
  const PromptMiddle: string :=
    "\n"
    + "\n"
    + Indent + "【待回答的问题】：" + "\n"
    + Indent

  /** The prompt text after the question. */
  const PromptTail: string := "\n" + Indent

  /** The prompt sent to the model: the fixed instructions with the context
      and the question in their places. */
  function Prompt(context: string, question: string): string {
    PromptHead + context + (PromptMiddle + question + PromptTail)
  }

  /** The context and the question appear verbatim in the prompt, each at its
      place between the fixed parts. */
  lemma PromptQuotes(context: string, question: string)
    ensures var p := Prompt(context, question);
            && |p| == |PromptHead| + |context| + |PromptMiddle| + |question| + |PromptTail|
            && p[|PromptHead| .. |PromptHead| + |context|] == context
            && p[|PromptHead| + |context| + |PromptMiddle| .. |p| - |PromptTail|] == question
  {
  }

  /** A text found at offset s of `body` is found at offset |head| + s once
      `body` stands between `head` and `tail`. */
  lemma QuotedAt(head: string, body: string, tail: string, s: nat, x: string)
    requires s + |x| <= |body| && body[s .. s + |x|] == x
    ensures |head| + s + |x| <= |head + body + tail|
    ensures (head + body + tail)[|head| + s .. |head| + s + |x|] == x
  {
    var whole := head + body + tail;
    assert forall t :: 0 <= t < |x| ==> whole[|head| + s .. |head| + s + |x|][t] == x[t];
  }

  /** With any fixed text around them, each retrieved passage appears
      verbatim in the text, inside the context, at its place. */
  lemma TemplateHoldsPassage(head: string, middle: string, tail: string,
                             docs: seq<Document>, question: string, k: nat)
    requires k < |docs|
    ensures var p := head + Context(docs) + (middle + question + tail);
            var start := |head| + PartStart(PageContents(docs), PassageSeparator, k);
            start + |docs[k].pageContent| <= |p| &&
            p[start .. start + |docs[k].pageContent|] == docs[k].pageContent
  {
    ContextHoldsPassage(docs, k);
    QuotedAt(head, Context(docs), middle + question + tail,
             PartStart(PageContents(docs), PassageSeparator, k), docs[k].pageContent);
  }

  /** Each retrieved passage appears verbatim in the prompt, inside the
      reference-material section, at its place in retrieval order. */
  lemma PromptHoldsPassage(docs: seq<Document>, question: string, k: nat)
    requires k < |docs|
    ensures var p := Prompt(Context(docs), question);
            var start := |PromptHead| + PartStart(PageContents(docs), PassageSeparator, k);
            start + |docs[k].pageContent| <= |p| &&
            p[start .. start + |docs[k].pageContent|] == docs[k].pageContent
  {
    TemplateHoldsPassage(PromptHead, PromptMiddle, PromptTail, docs, question, k);
  }

  // ---------------------------------------------------------------------------
  // The conversation
  // ---------------------------------------------------------------------------

  /** The questions asked for the input lines, in order: empty lines are
      skipped and the first exit word ends the session. */
  function Asked(lines: seq<string>): seq<string>
    decreases |lines|
  {
    if lines == [] then []
    else match Classify(lines[0])
      case Skip => Asked(lines[1..])
      case Quit => []
      case Ask(q) => [q] + Asked(lines[1..])
  }

  /** Nothing typed after an exit word is asked. */
  lemma {:induction false} AskedStopsAtQuit(lines: seq<string>, j: nat)
    requires j < |lines| && Classify(lines[j]) == Quit
    ensures Asked(lines) == Asked(lines[..j])
    decreases j
  {
    if j > 0 {
      assert lines[..j][1..] == lines[1..][..j - 1];
      AskedStopsAtQuit(lines[1..], j - 1);
    }
  }

  /** Every question asked is a line that was typed, not empty and not an exit
      word. */
  lemma {:induction false} AskedAreQuestions(lines: seq<string>, q: string)
    requires q in Asked(lines)
    ensures q in lines && q != [] && Lower(q) !in ExitWords
    decreases |lines|
  {
    if Classify(lines[0]) != Ask(lines[0]) || q != lines[0] {
      AskedAreQuestions(lines[1..], q);
    }
  }

  /** Before the first exit word, the lines can be cut anywhere: what is
      asked is what the front part asks followed by what the rest asks. */
  lemma {:induction false} AskedSplit(lines: seq<string>, j: nat)
    requires j <= |lines| && forall l :: 0 <= l < j ==> Classify(lines[l]) != Quit
    ensures Asked(lines) == Asked(lines[..j]) + Asked(lines[j..])
    decreases j
  {
    if j > 0 {
      assert lines[..j][1..] == lines[1..][..j - 1];
      assert lines[1..][j - 1..] == lines[j..];
      AskedSplit(lines[1..], j - 1);
    } else {
      assert lines[..0] == [] && lines[0..] == lines;
    }
  }

  /** Every line that is a question and comes before the first exit word is
      asked, at its place: after what the lines before it ask and before what
      the lines after it ask. */
  lemma AskedKeepsQuestion(lines: seq<string>, j: nat)
    requires j < |lines| && Classify(lines[j]).Ask?
    requires forall l :: 0 <= l < j ==> Classify(lines[l]) != Quit
    ensures Asked(lines) == Asked(lines[..j]) + [lines[j]] + Asked(lines[j + 1..])
  {
    var rest := lines[j..];
    assert rest[0] == lines[j] && rest[1..] == lines[j + 1..];
    assert Classify(rest[0]) == Ask(lines[j]);
    assert Asked(rest) == [lines[j]] + Asked(lines[j + 1..]);
    AskedSplit(lines, j);
  }

  /** The session loop. Each line is read; an empty one is skipped and an
      exit word ends the loop; any other is asked: the passages retrieved for
      it are joined into the context and the prompt is built. Returns the
      questions asked and the prompt built for each. */
  method Converse(lines: seq<string>, retrieve: string -> seq<Document>)
    returns (asked: seq<string>, prompts: seq<string>)
    ensures asked == Asked(lines)
    ensures |prompts| == |asked|
    ensures forall k :: 0 <= k < |asked| ==> prompts[k] == Prompt(Context(retrieve(asked[k])), asked[k])
  {
    asked, prompts := [], [];
    var next := 0;
    while next < |lines|
      invariant next <= |lines|
      invariant asked + Asked(lines[next..]) == Asked(lines)
      invariant |prompts| == |asked|
      invariant forall k :: 0 <= k < |asked| ==> prompts[k] == Prompt(Context(retrieve(asked[k])), asked[k])
    {
      var question := lines[next];
      assert lines[next..][1..] == lines[next + 1..];
      next := next + 1;
      if question == [] {
        continue;
      }
      if Lower(question) in ExitWords {
        break;
      }
      var relevant := retrieve(question);
      var context := Context(relevant);
      var prompt := Prompt(context, question);
      asked := asked + [question];
      prompts := prompts + [prompt];
    }
    assert lines[|lines|..] == [];
  }

  // ---------------------------------------------------------------------------
  // Choosing the PDF
  // ---------------------------------------------------------------------------

  /** `s.isdigit()` on ASCII: at least one character, all decimal digits. */
  predicate IsDigits(s: string) {
    |s| > 0 && forall k :: 0 <= k < |s| ==> '0' <= s[k] <= '9'
  }

  /** `int(s)` for a string of decimal digits. */
  function ParseNat(s: string): nat
    requires forall k :: 0 <= k < |s| ==> '0' <= s[k] <= '9'
    decreases |s|
  {
    if s == [] then 0
    else 10 * ParseNat(s[..|s| - 1]) + (s[|s| - 1] as int - '0' as int)
  }

  /** A typed selection the prompt accepts for `count` files. */
  predicate ValidSelection(s: string, count: nat) {
    IsDigits(s) && 1 <= ParseNat(s) <= count
  }

  /** The decimal digits of `n`, as the menu prints the number `idx + 1`. */
  function Decimal(n: nat): (s: string)
    ensures IsDigits(s)
    decreases n
  {
    var d := ['0' + (n % 10) as char];
    if n < 10 then d else Decimal(n / 10) + d
  }

  /** Reading back a printed number gives the number. */
  lemma {:induction false} ParseDecimal(n: nat)
    ensures ParseNat(Decimal(n)) == n
    decreases n
  {
    var s := Decimal(n);
    if n >= 10 {
      assert s[..|s| - 1] == Decimal(n / 10);
      ParseDecimal(n / 10);
    }
  }

  /** Typing the number the menu shows next to a file selects that file. */
  lemma MenuNumberSelects(files: seq<string>, idx: nat)
    requires idx < |files|
    ensures ValidSelection(Decimal(idx + 1), |files|)
    ensures files[ParseNat(Decimal(idx + 1)) - 1] == files[idx]
  {
    ParseDecimal(idx + 1);
  }

  /** The outcome of choosing the PDF. */
  datatype Choice = NoFile | Chosen(file: string) | NoAnswer

  /** `get_pdf_file`, given the PDF files found and the lines typed at the
      selection prompt. No file gives no choice; a single file is taken
      without asking; otherwise the prompt repeats until a selection is all
      digits and between 1 and the number of files, and the file with that
      1-based number is taken. Also returns how many typed lines were read. */
  method GetPdfFile(files: seq<string>, answers: seq<string>) returns (choice: Choice, used: nat)
    ensures choice == NoFile <==> |files| == 0
    ensures |files| <= 1 ==> used == 0
    ensures |files| == 1 ==> choice == Chosen(files[0])
    ensures choice.Chosen? ==> choice.file in files
    ensures |files| >= 2 && choice.Chosen? ==>
              && 0 < used <= |answers|
              && ValidSelection(answers[used - 1], |files|)
              && choice.file == files[ParseNat(answers[used - 1]) - 1]
              && forall j :: 0 <= j < used - 1 ==> !ValidSelection(answers[j], |files|)
    ensures |files| >= 2 && !choice.Chosen? ==>
              && choice == NoAnswer && used == |answers|
              && forall j :: 0 <= j < |answers| ==> !ValidSelection(answers[j], |files|)
  {
    if |files| == 0 {
      return NoFile, 0;
    }
    if |files| == 1 {
      return Chosen(files[0]), 0;
    }
    used := 0;
    while used < |answers|
      invariant used <= |answers|
      invariant forall j :: 0 <= j < used ==> !ValidSelection(answers[j], |files|)
    {
      var selection := answers[used];
      used := used + 1;
      if IsDigits(selection) && 1 <= ParseNat(selection) <= |files| {
        return Chosen(files[ParseNat(selection) - 1]), used;
      }
    }
    return NoAnswer, used;
  }

  // ---------------------------------------------------------------------------
  // The script
  // ---------------------------------------------------------------------------

  /** What a run of the script did. */
  datatype Run =
    | NoPdf
    | Finished(file: string, selectionLines: nat, batches: seq<seq<Document>>,
               reports: seq<nat>, asked: seq<string>, prompts: seq<string>)

  /** `main`, on one stream of console lines: choose the PDF, reading lines
      until a selection is accepted when there are several files; stop if
      there is none; reach the store (building it from `splits` when
      `storeExists` is false); then hold the conversation on the lines that
      follow the selection. `selectionLines` is the number of lines the
      selection read. */
  method RunScript(files: seq<string>, input: seq<string>, storeExists: bool,
                   splits: seq<Document>, retrieve: string -> seq<Document>)
    returns (run: Run)
    ensures |files| == 0 ==> run == NoPdf
    ensures |files| == 1 ==> run.Finished? && run.file == files[0] && run.selectionLines == 0
    ensures run.Finished? ==> run.file in files && run.selectionLines <= |input|
    ensures |files| >= 2 ==>
              (run.Finished? <==> exists j :: 0 <= j < |input| && ValidSelection(input[j], |files|))
    ensures |files| >= 2 && run.Finished? ==>
              && 0 < run.selectionLines
              && ValidSelection(input[run.selectionLines - 1], |files|)
              && run.file == files[ParseNat(input[run.selectionLines - 1]) - 1]
              && forall j :: 0 <= j < run.selectionLines - 1 ==> !ValidSelection(input[j], |files|)
    ensures run.Finished? && storeExists ==> run.batches == [] && run.reports == []
    ensures run.Finished? && !storeExists ==>
              run.batches == Batches(splits, 0) && run.reports == Progress(|splits|, 0)
    ensures run.Finished? && !storeExists ==> Flatten(run.batches) == splits
    ensures run.Finished? ==>
              run.asked == Asked(input[run.selectionLines..]) && |run.prompts| == |run.asked|
    ensures run.Finished? ==> forall k :: 0 <= k < |run.asked| ==>
              run.prompts[k] == Prompt(Context(retrieve(run.asked[k])), run.asked[k])
  {
    var choice, used := GetPdfFile(files, input);
    if !choice.Chosen? {
      return NoPdf;
    }
    var batches, reports := OpenStore(storeExists, splits);
    var asked, prompts := Converse(input[used..], retrieve);
    run := Finished(choice.file, used, batches, reports, asked, prompts);
  }

  /** With two files and the lines "x", "2", "hello", "q": "x" is refused,
      "2" selects the second file, and of the two lines that follow only
      "hello" is asked. */
  lemma SelectionThenQuestions()
    ensures !ValidSelection("x", 2) && ValidSelection("2", 2) && ParseNat("2") == 2
    ensures Asked(["x", "2", "hello", "q"][2..]) == ["hello"]
  {
    var rest := ["x", "2", "hello", "q"][2..];
    assert rest == ["hello", "q"];
    assert Classify("hello") == Ask("hello") by {
      assert Lower("hello") == "hello";
      assert "hello" != "q" && "hello" != "exit" && "hello" != "退出";
    }
    assert Classify("q") == Quit by {
      assert Lower("q") == "q";
    }
    assert rest[1..] == ["q"];
    assert Asked(rest) == ["hello"] + Asked(rest[1..]);
  }
}
