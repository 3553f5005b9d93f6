/**
 * The page script around the pipeline: the process-wide resources, `predict_role`
 * (app.py:39-46) and the branches that decide what `text` is and whether it
 * is classified (app.py:68-87). Widgets, layout and charts are not modelled;
 * what the widgets return is the page's input.
 */
module App {
  import opened Wrappers
  import opened PyStr
  import TextNormalizer
  import TextExtractor
  import opened Ranking

  /** What app.py:11-18 loads once: the stopword set, the lemmatiser, the
      classifier's `classes_`, and the composition of `tfidf.transform` with
      `model.predict_proba`, from cleaned text to one probability per class. */
  datatype Artifacts = Artifacts(
    stopwords: set<string>,
    lemmatize: string -> string,
    classes: seq<Role>,
    distribution: string -> seq<real>)

  /** What a fitted scikit-learn classifier guarantees: at least one class,
      distinct class labels, and one probability per class for every input. */
  ghost predicate Fitted(a: Artifacts) {
    && |a.classes| > 0
    && Distinct(a.classes)
    && forall s :: |a.distribution(s)| == |a.classes|
  }

  /** `predict_proba(tfidf.transform([clean_text(text)]))[0]`: one probability per class. */
  function Probabilities(a: Artifacts, text: string): seq<real> {
    a.distribution(TextNormalizer.CleanText(text, a.stopwords, a.lemmatize))
  }

  /** `predict_role(text)`: the predicted class and `ranked`. The prediction is
      the first class with the largest probability; `ranked` lists every class
      once with its rounded probability, never increasing. Its first entry
      carries the predicted class's rounded score, and names the predicted
      class exactly when no earlier class rounds to the same value. */
  function PredictRole(a: Artifacts, text: string): (r: (Role, seq<Scored>))
    requires Fitted(a)
    ensures var p := Probabilities(a, text);
      var k := ArgMax(p);
      && r.0 == a.classes[k]
      && |r.1| == |a.classes| && DistinctRoles(r.1) && NonIncreasing(r.1)
      && (forall i :: 0 <= i < |a.classes| ==> Scored(a.classes[i], Round3(p[i])) in r.1)
      && (forall c :: c in Roles(r.1) <==> c in a.classes)
      && r.1[0].score == Round3(p[k])
      && (r.1[0].role == r.0 <==> forall i :: 0 <= i < k ==> Round3(p[i]) != Round3(p[k]))
  {
    var probs := Probabilities(a, text);
    RankedOnePerClass(a.classes, probs);
    RankedRoles(a.classes, probs);
    PredictionVersusTop(a.classes, probs);
    (Predict(a.classes, probs), Ranked(a.classes, probs))
  }

  /** An uploaded file: its name and its bytes. */
  datatype Upload = Upload(name: string, content: seq<bv8>)

  /** What the widgets hold: either the uploader (empty or with a file), or the
      text area together with whether "Classify" was pressed. */
  datatype Input =
    | UploadChoice(file: Option<Upload>)
    | PasteChoice(pasted: string, clicked: bool)

  /** pdfplumber's page texts and python-docx's paragraph texts, as functions of the bytes. */
  datatype Parsers = Parsers(
    pdfPages: seq<bv8> -> seq<Option<string>>,
    docxParagraphs: seq<bv8> -> seq<string>)

  /** The text `extract_text_from_pdf` or `extract_text_from_docx` yields for a
      file, chosen by whether its name ends with `.pdf` (app.py:74-77). */
  function Extracted(f: Upload, parsers: Parsers): string {
    if EndsWith(f.name, ".pdf") then TextExtractor.PdfText(parsers.pdfPages(f.content))
    else TextExtractor.DocxText(parsers.docxParagraphs(f.content))
  }

  /** The value `text` holds at app.py:87. */
  function InputText(input: Input, parsers: Parsers): Option<string> {
    match input
    case UploadChoice(None) => None
    case UploadChoice(Some(f)) => Some(Extracted(f, parsers))
    case PasteChoice(pasted, clicked) =>
      if clicked && Strip(pasted) != "" then Some(pasted) else None
  }

  /** Python's truthiness of `text`: neither `None` nor the empty string. */
  predicate Truthy(text: Option<string>) {
    text.Some? && text.value != ""
  }

  /** app.py:68-89: set `text` through the input branches, warn on blank
      pasted text, and classify only when `text` is truthy. */
  method RunPage(input: Input, parsers: Parsers, a: Artifacts)
    returns (text: Option<string>, warned: bool, result: Option<(Role, seq<Scored>)>)
    requires Fitted(a)
    ensures text == InputText(input, parsers)
    ensures warned <==> input.PasteChoice? && input.clicked && AllSpace(input.pasted)
    ensures result.Some? <==> Truthy(text)
    ensures result.Some? ==> result.value == PredictRole(a, text.value)
  {
    text := None;
    warned := false;
    match input {
      case UploadChoice(file) =>
        if file.Some? {
          if EndsWith(file.value.name, ".pdf") {
            var t := TextExtractor.ExtractPdf(parsers.pdfPages(file.value.content));
            text := Some(t);
          } else {
            text := Some(TextExtractor.DocxText(parsers.docxParagraphs(file.value.content)));
          }
        }
      case PasteChoice(pasted, clicked) =>
        if clicked {
          StripEmpty(pasted);
          if Strip(pasted) != "" {
            text := Some(pasted);
          } else {
            warned := true;
          }
        }
    }
    if text.Some? && text.value != "" {
      result := Some(PredictRole(a, text.value));
    } else {
      result := None;
    }
  }

  /** Pasted text is accepted exactly when "Classify" was pressed and it is not
      all whitespace, and accepted pasted text is always classified. */
  lemma PasteGate(pasted: string, clicked: bool, parsers: Parsers)
    ensures InputText(PasteChoice(pasted, clicked), parsers).Some? <==> clicked && !AllSpace(pasted)
    ensures Truthy(InputText(PasteChoice(pasted, clicked), parsers)) <==> clicked && !AllSpace(pasted)
  {
    StripEmpty(pasted);
  }

  /** An uploaded file is classified exactly when its extracted text is not
      empty: for a PDF, when some page has text; for a DOCX, when it has two
      or more paragraphs or a single non-empty one. */
  lemma UploadGate(f: Upload, parsers: Parsers)
    ensures Truthy(InputText(UploadChoice(Some(f)), parsers)) <==> Extracted(f, parsers) != ""
    ensures EndsWith(f.name, ".pdf") ==>
      var pages := parsers.pdfPages(f.content);
      (Truthy(InputText(UploadChoice(Some(f)), parsers)) <==>
        exists i :: 0 <= i < |pages| && TextExtractor.PageText(pages[i]) != "")
    ensures !EndsWith(f.name, ".pdf") ==>
      var paragraphs := parsers.docxParagraphs(f.content);
      (Truthy(InputText(UploadChoice(Some(f)), parsers)) <==>
        |paragraphs| >= 2 || (|paragraphs| == 1 && paragraphs[0] != ""))
  {
    TextExtractor.PdfTextEmpty(parsers.pdfPages(f.content));
    TextExtractor.DocxTextEmpty(parsers.docxParagraphs(f.content));
  }

  /** A PDF without a text layer on any page yields `""`, and the page then
      shows no prediction at all. */
  lemma TextlessPdfNotClassified(f: Upload, parsers: Parsers)
    requires EndsWith(f.name, ".pdf")
    requires forall i :: 0 <= i < |parsers.pdfPages(f.content)| ==> parsers.pdfPages(f.content)[i].None?
    ensures InputText(UploadChoice(Some(f)), parsers) == Some("")
    ensures !Truthy(InputText(UploadChoice(Some(f)), parsers))
  {
    TextExtractor.PdfTextEmpty(parsers.pdfPages(f.content));
  }

  /** Two empty DOCX paragraphs give the text `" "`, which the gate lets
      through although it cleans to the empty string. */
  lemma EmptyParagraphsStillClassified(f: Upload, parsers: Parsers, stop: set<string>, lemmatize: string -> string)
    requires !EndsWith(f.name, ".pdf")
    requires parsers.docxParagraphs(f.content) == ["", ""]
    ensures InputText(UploadChoice(Some(f)), parsers) == Some(" ")
    ensures Truthy(InputText(UploadChoice(Some(f)), parsers))
    ensures TextNormalizer.CleanText(" ", stop, lemmatize) == ""
  {
    var paragraphs := parsers.docxParagraphs(f.content);
    assert paragraphs[1..] == [""];
    assert SpaceJoin(paragraphs[1..]) == "";
    assert TextExtractor.DocxText(paragraphs) == " ";
    TextNormalizer.CleanTextWithoutLetters(" ", stop, lemmatize);
  }
}
