/** The upload form of the gallery (`FormAddImage`): the media-type check, the
    declarative field rules, and the submission workflow run once every field
    passes its rules. The workflow is modelled as the sequence of effects it
    performs; the outcome of the create request is an input. */
module FormAddImage {
  import opened JsSplit

  // ---------------------------------------------------------------------
  // The media-type check (`imageFormatValidation`)
  // ---------------------------------------------------------------------

  /** ASCII upper case of a lower-case letter; other characters unchanged. */
  function AsciiUpper(c: char): char
  {
    if 'a' <= c <= 'z' then (c as int - 32) as char else c
  }

  /** ASCII lower case of an upper-case letter; other characters unchanged. */
  function AsciiLower(c: char): char
  {
    if 'A' <= c <= 'Z' then (c as int + 32) as char else c
  }

  function AsciiLowerString(s: string): (r: string)
    ensures |r| == |s|
  {
    seq(|s|, i requires 0 <= i < |s| => AsciiLower(s[i]))
  }

  /** One alternative of the anchored pattern
      `^([jJ][pP][gG]|([jJ][pP][eE][gG])|[gG][iI][fF]|[pP][nN][gG])$`:
      position by position, the class made of a letter of `word` and its
      upper case. */
  predicate MatchesLetters(s: string, word: string)
  {
    |s| == |word| &&
    forall i :: 0 <= i < |s| ==> s[i] == word[i] || s[i] == AsciiUpper(word[i])
  }

  /** The accepted subtypes, written in lower case. */
  const AcceptedFormats: set<string> := {"jpg", "jpeg", "gif", "png"}

  /** Reference reading of the pattern: the subtype is one of the accepted
      formats once its ASCII letters are lower-cased. */
  predicate IsAcceptedFormat(s: string)
  {
    AsciiLowerString(s) in AcceptedFormats
  }

  predicate IsLowerWord(w: string)
  {
    forall i :: 0 <= i < |w| ==> 'a' <= w[i] <= 'z'
  }

  lemma MatchesLettersLower(s: string, w: string)
    requires IsLowerWord(w)
    ensures MatchesLetters(s, w) <==> AsciiLowerString(s) == w
  {
    if MatchesLetters(s, w) {
      forall i | 0 <= i < |s| ensures AsciiLowerString(s)[i] == w[i] {
        assert s[i] == w[i] || s[i] == AsciiUpper(w[i]);
      }
    }
    if AsciiLowerString(s) == w {
      forall i | 0 <= i < |s| ensures s[i] == w[i] || s[i] == AsciiUpper(w[i]) {
        assert AsciiLower(s[i]) == w[i];
      }
    }
  }

  /** `formatsRegex.test(s)`: one of the four alternatives matches the whole
      string. It accepts exactly jpg, jpeg, gif and png in any mix of letter
      cases. */
  function FormatsRegexTest(s: string): (ok: bool)
    ensures ok <==> IsAcceptedFormat(s)
  {
    MatchesLettersLower(s, "jpg");
    MatchesLettersLower(s, "jpeg");
    MatchesLettersLower(s, "gif");
    MatchesLettersLower(s, "png");
    MatchesLetters(s, "jpg") || MatchesLetters(s, "jpeg") ||
    MatchesLetters(s, "gif") || MatchesLetters(s, "png")
  }

  /** What `RegExp.prototype.test` sees when the destructured `fileFormat` is
      `undefined`: the argument converted to a string. */
  const UndefinedAsString := "undefined"

  /** Reference reading of the whole check: the string starts with `image/`
      (the type compared exactly, letter case included), and what follows, up
      to the next `/` or the end, is an accepted format. */
  predicate ImageTypeAccepted(t: string)
  {
    |t| >= 6 && t[..6] == "image/" && IsAcceptedFormat(TakeUntil(t[6..], '/'))
  }

  /** `imageFormatValidation(type)`: split on `/`, require the first piece to
      be exactly `image`, and test the second piece (or `undefined` when there
      is none) against the anchored pattern. Later pieces are ignored. */
  function ImageFormatValidation(mediaType: string): (ok: bool)
    ensures ok <==> ImageTypeAccepted(mediaType)
  {
    var parts := Split(mediaType, '/');
    var fileType := parts[0];
    var fileFormat := if |parts| >= 2 then parts[1] else UndefinedAsString;
    ImageFormatValidationMeans(mediaType);
    if fileType != "image" then false else FormatsRegexTest(fileFormat)
  }

  lemma ImageFormatValidationMeans(t: string)
    ensures
      var parts := Split(t, '/');
      var fileFormat := if |parts| >= 2 then parts[1] else UndefinedAsString;
      (parts[0] == "image" && FormatsRegexTest(fileFormat)) <==> ImageTypeAccepted(t)
  {
    var parts := Split(t, '/');
    if |t| >= 6 && t[..6] == "image/" {
      ImageTypeSplit(t);
    } else {
      ImageTypePiece(t);
      assert !FormatsRegexTest(UndefinedAsString);
    }
  }

  /** For a string starting with `image/`, the first piece is `image` and the
      second is what follows up to the next `/`. */
  lemma ImageTypeSplit(t: string)
    requires |t| >= 6 && t[..6] == "image/"
    ensures |Split(t, '/')| >= 2
    ensures Split(t, '/')[0] == "image" && Split(t, '/')[1] == TakeUntil(t[6..], '/')
  {
    assert t == "image" + ['/'] + t[6..];
    SplitCons("image", '/', t[6..]);
    SplitFront(t[6..], '/');
  }

  /** A first piece equal to `image` followed by a further piece means the
      string starts with `image/`. */
  lemma ImageTypePiece(t: string)
    ensures Split(t, '/')[0] == "image" && |Split(t, '/')| >= 2 ==> |t| >= 6 && t[..6] == "image/"
  {
    SplitFront(t, '/');
    var head := TakeUntil(t, '/');
    if head == "image" && '/' in t {
      assert |head| < |t|;
      assert t[..6] == head + [t[5]];
    }
  }

  /** The type is compared case-sensitively: `IMAGE/...` is rejected whatever
      the subtype. */
  lemma TypeComparedExactly(subtype: string)
    ensures !ImageFormatValidation("IMAGE/" + subtype)
  {
    assert ("IMAGE/" + subtype)[..6] == "IMAGE/";
  }

  /** For a subtype without `/`, `image/<subtype>` is accepted exactly when
      the subtype is jpg, jpeg, gif or png in any mix of letter cases. */
  lemma SubtypeDecides(subtype: string)
    requires '/' !in subtype
    ensures ImageFormatValidation("image/" + subtype) <==> IsAcceptedFormat(subtype)
  {
    var t := "image/" + subtype;
    assert t[..6] == "image/" && t[6..] == subtype;
    TakeUntilOf(subtype, '/', []);
  }

  /** Only the second piece is tested: whatever follows a further `/` is
      ignored. */
  lemma LaterPiecesIgnored(subtype: string, rest: string)
    requires '/' !in subtype
    ensures ImageFormatValidation("image/" + subtype + "/" + rest) == ImageFormatValidation("image/" + subtype)
  {
    var t := "image/" + subtype + "/" + rest;
    assert t[..6] == "image/" && t[6..] == subtype + ['/'] + rest;
    TakeUntilOf(subtype, '/', rest);
    SubtypeDecides(subtype);
  }

  /** A string without `/` has no subtype and is rejected. */
  lemma NoSlashRejected(t: string)
    requires '/' !in t
    ensures !ImageFormatValidation(t)
  {
    if |t| >= 6 {
      assert t[5] == t[..6][5];
    }
  }

  /** The pattern is anchored and letter case is free: `PnG` and `JPEG` match;
      `pngx`, `bmp` and `svg+xml` do not. */
  lemma PatternExamples()
    ensures FormatsRegexTest("PnG") && FormatsRegexTest("JPEG")
    ensures !FormatsRegexTest("pngx") && !FormatsRegexTest("bmp") && !FormatsRegexTest("svg+xml")
  {
    assert MatchesLetters("PnG", "png") by {
      assert AsciiUpper('n') == 'N';
    }
    assert MatchesLetters("JPEG", "jpeg") by {
      assert AsciiUpper('j') == 'J' && AsciiUpper('p') == 'P' && AsciiUpper('e') == 'E' && AsciiUpper('g') == 'G';
    }
    assert !MatchesLetters("pngx", "jpeg") by {
      assert "pngx"[0] == 'p' && "jpeg"[0] == 'j' && AsciiUpper('j') == 'J';
    }
    assert "bmp"[0] == 'b' && "jpg"[0] == 'j' && "gif"[0] == 'g' && "png"[0] == 'p';
    assert AsciiUpper('j') == 'J' && AsciiUpper('g') == 'G' && AsciiUpper('p') == 'P';
  }

  // ---------------------------------------------------------------------
  // Declarative field rules (`formValidations`)
  // ---------------------------------------------------------------------

  /** The answer a rule gives: pass, or fail with the message shown inline. */
  datatype Verdict = Pass | Fail(message: string)

  /** A `minLength`/`maxLength` entry, or its absence. */
  datatype Limit = NoLimit | Limit(value: nat, message: string)

  /** The rules of a text field: `required` message and length limits. */
  datatype TextRules = TextRules(required: string, minLength: Limit, maxLength: Limit)

  const TitleRules := TextRules(
    "Título obrigatório.",
    Limit(2, "Mínimo 2 caracteres."),
    Limit(20, "Máximo 20 caracteres."))

  const DescriptionRules := TextRules(
    "Descrição obrigatória.",
    NoLimit,
    Limit(65, "Máximo de 65 caracteres."))

  /** Applies a text field's rules: an empty value fails `required`; a value
      over the maximum fails with the maximum's message, one under the minimum
      with the minimum's message. */
  function CheckText(rules: TextRules, value: string): (v: Verdict)
    ensures v.Fail? ==>
      v.message == rules.required ||
      (rules.minLength.Limit? && v.message == rules.minLength.message) ||
      (rules.maxLength.Limit? && v.message == rules.maxLength.message)
    ensures v.Pass? ==> |value| > 0
  {
    if |value| == 0 then Fail(rules.required)
    else if rules.maxLength.Limit? && |value| > rules.maxLength.value then Fail(rules.maxLength.message)
    else if rules.minLength.Limit? && |value| < rules.minLength.value then Fail(rules.minLength.message)
    else Pass
  }

  /** The title is valid exactly when it has 2 to 20 characters; a
      one-character title fails with the minimum message and a longer one than
      20 with the maximum message. */
  lemma TitleRule(title: string)
    ensures CheckText(TitleRules, title).Pass? <==> 2 <= |title| <= 20
    ensures |title| == 0 ==> CheckText(TitleRules, title) == Fail("Título obrigatório.")
    ensures |title| == 1 ==> CheckText(TitleRules, title) == Fail("Mínimo 2 caracteres.")
    ensures |title| > 20 ==> CheckText(TitleRules, title) == Fail("Máximo 20 caracteres.")
  {
  }

  /** The description is valid exactly when it has 1 to 65 characters. */
  lemma DescriptionRule(description: string)
    ensures CheckText(DescriptionRules, description).Pass? <==> 1 <= |description| <= 65
    ensures |description| == 0 ==> CheckText(DescriptionRules, description) == Fail("Descrição obrigatória.")
    ensures |description| > 65 ==> CheckText(DescriptionRules, description) == Fail("Máximo de 65 caracteres.")
  {
  }

  /** What the form knows of a selected file. */
  datatype FileInfo = FileInfo(size: nat, mediaType: string)

  /** Files must be smaller than 10 000 KiB. */
  const MaxImageBytes: nat := 10000 * 1024

  const ImageRequiredMessage := "Arquivo obrigatório."
  const ImageSizeMessage := "O arquivo deve ser menor que 10MB"
  const ImageFormatMessage := "Somente são aceitos arquivos PNG, JPEG e GIF"

  /** `validate.lessThan10mb` on the first selected file. */
  function LessThan10Mb(file: FileInfo): (v: Verdict)
    ensures v.Pass? <==> file.size < 10240000
    ensures v.Fail? ==> v.message == ImageSizeMessage
  {
    if file.size < MaxImageBytes then Pass else Fail(ImageSizeMessage)
  }

  /** `validate.acceptedFormats` on the first selected file. */
  function AcceptedFormatsRule(file: FileInfo): (v: Verdict)
    ensures v.Pass? <==> ImageTypeAccepted(file.mediaType)
    ensures v.Fail? ==> v.message == ImageFormatMessage
  {
    if ImageFormatValidation(file.mediaType) then Pass else Fail(ImageFormatMessage)
  }

  /** The image field's rules: `required`, then the `validate` entries in the
      order they are declared; the first failure is reported. */
  function CheckImage(files: seq<FileInfo>): (v: Verdict)
    ensures v.Pass? <==>
      |files| > 0 && files[0].size < 10240000 && ImageTypeAccepted(files[0].mediaType)
    ensures |files| == 0 ==> v == Fail(ImageRequiredMessage)
    ensures |files| > 0 && files[0].size >= 10240000 ==> v == Fail(ImageSizeMessage)
    ensures |files| > 0 && files[0].size < 10240000 && !ImageTypeAccepted(files[0].mediaType) ==>
      v == Fail(ImageFormatMessage)
  {
    if |files| == 0 then Fail(ImageRequiredMessage)
    else if LessThan10Mb(files[0]).Fail? then LessThan10Mb(files[0])
    else AcceptedFormatsRule(files[0])
  }

  /** A file of exactly 10 240 000 bytes is already too large. */
  lemma SizeBoundary()
    ensures LessThan10Mb(FileInfo(10240000, "image/png")) == Fail(ImageSizeMessage)
    ensures LessThan10Mb(FileInfo(10239999, "image/png")) == Pass
  {
  }

  datatype Field = Image | Title | Description

  /** The values the form holds when it is submitted. */
  datatype FormValues = FormValues(image: seq<FileInfo>, title: string, description: string)

  function Check(values: FormValues, field: Field): Verdict
  {
    match field
    case Image => CheckImage(values.image)
    case Title => CheckText(TitleRules, values.title)
    case Description => CheckText(DescriptionRules, values.description)
  }

  /** The inline error of every field whose rules fail. */
  function Errors(values: FormValues): (errors: map<Field, string>)
    ensures forall f :: f in errors <==> Check(values, f).Fail?
    ensures forall f :: f in errors ==> errors[f] == Check(values, f).message
  {
    map f | f in {Image, Title, Description} && Check(values, f).Fail? :: Check(values, f).message
  }

  /** The form passes validation exactly when a file under the size limit with
      an accepted media type is selected, the title has 2 to 20 characters and
      the description 1 to 65. */
  lemma FormAccepted(values: FormValues)
    ensures Errors(values) == map[] <==>
      |values.image| > 0 && values.image[0].size < 10240000 &&
      ImageTypeAccepted(values.image[0].mediaType) &&
      2 <= |values.title| <= 20 && 1 <= |values.description| <= 65
  {
    TitleRule(values.title);
    DescriptionRule(values.description);
    if Errors(values) == map[] {
      assert Check(values, Image).Pass? && Check(values, Title).Pass? && Check(values, Description).Pass?;
    } else {
      var f :| f in Errors(values);
    }
  }

  // ---------------------------------------------------------------------
  // The submission workflow (`onSubmit`)
  // ---------------------------------------------------------------------

  datatype Status = Error | Success

  /** A toast's display time: the library default, or milliseconds. */
  datatype Duration = DefaultDuration | Millis(ms: nat)

  datatype Toast = Toast(title: string, description: string, status: Status, duration: Duration)

  /** The body of the create request. */
  datatype ImagePayload = ImagePayload(title: string, description: string, url: string)

  /** The observable effects of a submission. */
  datatype Effect =
    | ShowToast(toast: Toast)
    | Post(image: ImagePayload)
    | InvalidateQueries(key: string)
    | Reset
    | CloseModal

  const ImagesQueryKey := "images"

  const MissingImageToast := Toast(
    "Imagem não adicionada",
    "É preciso adicionar e aguardar o upload de uma imagem antes de realizar o cadastro.",
    Error, DefaultDuration)

  const CreatedToast := Toast(
    "Imagem cadastrada", "Sua imagem cadastrada com sucesso.", Success, Millis(5 * 1000))

  const FailedToast := Toast(
    "Ocorreu um erro", "Não foi possível cadastrar a imagem.", Error, Millis(2000))

  /** The effects of the `try` block of `onSubmit`: the guard toast, or the
      create request followed on success by the mutation's `onSuccess`
      invalidation and the success toast, on failure by the `catch` toast. */
  function Attempt(imageUrl: string, data: FormValues, postSucceeds: bool): seq<Effect>
  {
    if imageUrl == "" then [ShowToast(MissingImageToast)]
    else [Post(ImagePayload(data.title, data.description, imageUrl))] + Outcome(postSucceeds)
  }

  /** What follows the create request: the invalidation and the success toast,
      or the failure toast. */
  function Outcome(postSucceeds: bool): seq<Effect>
  {
    if postSucceeds then [InvalidateQueries(ImagesQueryKey), ShowToast(CreatedToast)]
    else [ShowToast(FailedToast)]
  }

  /** The effects `onSubmit` performs, in order: the `try` block, then the
      `finally` block. */
  function SubmitEffects(imageUrl: string, data: FormValues, postSucceeds: bool): seq<Effect>
  {
    Attempt(imageUrl, data, postSucceeds) + [Reset, CloseModal]
  }

  /** `onSubmit(data)`, with `imageUrl` the uploaded file's URL (empty while
      no upload has completed) and `postSucceeds` the outcome of the create
      request. */
  method OnSubmit(imageUrl: string, data: FormValues, postSucceeds: bool) returns (effects: seq<Effect>)
    ensures effects == SubmitEffects(imageUrl, data, postSucceeds)
  {
    effects := [];
    // try
    if imageUrl == "" {
      effects := effects + [ShowToast(MissingImageToast)];
    } else {
      var image := ImagePayload(data.title, data.description, imageUrl);
      effects := effects + [Post(image)];
      if postSucceeds {
        effects := effects + [InvalidateQueries(ImagesQueryKey)];
        effects := effects + [ShowToast(CreatedToast)];
      } else {
        // catch
        effects := effects + [ShowToast(FailedToast)];
      }
    }
    // finally
    effects := effects + [Reset];
    effects := effects + [CloseModal];
  }

  /** `handleSubmit(onSubmit)`: `onSubmit` runs only when every field passes
      its rules; otherwise nothing happens beyond the inline errors. */
  method HandleSubmit(values: FormValues, imageUrl: string, postSucceeds: bool) returns (effects: seq<Effect>)
    ensures Errors(values) != map[] ==> effects == []
    ensures Errors(values) == map[] ==> effects == SubmitEffects(imageUrl, values, postSucceeds)
    ensures |Posts(effects)| == (if Errors(values) == map[] && imageUrl != "" then 1 else 0)
  {
    if Errors(values) == map[] {
      effects := OnSubmit(imageUrl, values, postSucceeds);
      SubmitPosts(imageUrl, values, postSucceeds);
    } else {
      effects := [];
    }
  }

  // Views of an effect sequence

  /** The bodies of the create requests sent, in order. */
  function Posts(effects: seq<Effect>): seq<ImagePayload>
  {
    if effects == [] then []
    else (if effects[0].Post? then [effects[0].image] else []) + Posts(effects[1..])
  }

  /** The toasts shown, in order. */
  function Toasts(effects: seq<Effect>): seq<Toast>
  {
    if effects == [] then []
    else (if effects[0].ShowToast? then [effects[0].toast] else []) + Toasts(effects[1..])
  }

  /** How many times `e` occurs. */
  function Count(effects: seq<Effect>, e: Effect): nat
  {
    if effects == [] then 0 else (if effects[0] == e then 1 else 0) + Count(effects[1..], e)
  }

  lemma {:induction false} PostsAppend(a: seq<Effect>, b: seq<Effect>)
    ensures Posts(a + b) == Posts(a) + Posts(b)
  {
    if a == [] {
      assert a + b == b;
    } else {
      var head := if a[0].Post? then [a[0].image] else [];
      assert (a + b)[0] == a[0] && (a + b)[1..] == a[1..] + b;
      PostsAppend(a[1..], b);
      calc {
        Posts(a + b);
        head + Posts(a[1..] + b);
        head + (Posts(a[1..]) + Posts(b));
        (head + Posts(a[1..])) + Posts(b);
        Posts(a) + Posts(b);
      }
    }
  }

  lemma {:induction false} ToastsAppend(a: seq<Effect>, b: seq<Effect>)
    ensures Toasts(a + b) == Toasts(a) + Toasts(b)
  {
    if a == [] {
      assert a + b == b;
    } else {
      var head := if a[0].ShowToast? then [a[0].toast] else [];
      assert (a + b)[0] == a[0] && (a + b)[1..] == a[1..] + b;
      ToastsAppend(a[1..], b);
      calc {
        Toasts(a + b);
        head + Toasts(a[1..] + b);
        head + (Toasts(a[1..]) + Toasts(b));
        (head + Toasts(a[1..])) + Toasts(b);
        Toasts(a) + Toasts(b);
      }
    }
  }

  lemma {:induction false} CountAppend(a: seq<Effect>, b: seq<Effect>, e: Effect)
    ensures Count(a + b, e) == Count(a, e) + Count(b, e)
  {
    if a == [] {
      assert a + b == b;
    } else {
      assert (a + b)[1..] == a[1..] + b;
      CountAppend(a[1..], b, e);
    }
  }

  // Properties of the workflow

  /** No create request without an uploaded URL; with one, exactly one
      request, carrying the form's title and description and that URL. */
  lemma SubmitPosts(imageUrl: string, data: FormValues, postSucceeds: bool)
    ensures Posts(SubmitEffects(imageUrl, data, postSucceeds)) ==
      if imageUrl == "" then [] else [ImagePayload(data.title, data.description, imageUrl)]
  {
    var attempt := Attempt(imageUrl, data, postSucceeds);
    PostsAppend(attempt, [Reset, CloseModal]);
    PostsAppend([Reset], [CloseModal]);
    if imageUrl != "" {
      PostsAppend([attempt[0]], Outcome(postSucceeds));
      PostsAppend([InvalidateQueries(ImagesQueryKey)], [ShowToast(CreatedToast)]);
    }
  }

  /** On every path the form is reset and the modal closed exactly once, and
      these are the last two effects, in that order. */
  lemma SubmitAlwaysResetsAndCloses(imageUrl: string, data: FormValues, postSucceeds: bool)
    ensures
      var effects := SubmitEffects(imageUrl, data, postSucceeds);
      |effects| >= 2 &&
      effects[|effects| - 2..] == [Reset, CloseModal] &&
      Count(effects, Reset) == 1 && Count(effects, CloseModal) == 1
  {
    var attempt := Attempt(imageUrl, data, postSucceeds);
    CountAppend(attempt, [Reset, CloseModal], Reset);
    CountAppend(attempt, [Reset, CloseModal], CloseModal);
    CountAppend([Reset], [CloseModal], Reset);
    CountAppend([Reset], [CloseModal], CloseModal);
    if imageUrl != "" {
      CountAppend([attempt[0]], Outcome(postSucceeds), Reset);
      CountAppend([attempt[0]], Outcome(postSucceeds), CloseModal);
      CountAppend([InvalidateQueries(ImagesQueryKey)], [ShowToast(CreatedToast)], Reset);
      CountAppend([InvalidateQueries(ImagesQueryKey)], [ShowToast(CreatedToast)], CloseModal);
    }
  }

  /** The image list is invalidated once when the create request succeeds
      and never otherwise. */
  lemma SubmitInvalidatesOnlyOnSuccess(imageUrl: string, data: FormValues, postSucceeds: bool)
    ensures Count(SubmitEffects(imageUrl, data, postSucceeds), InvalidateQueries(ImagesQueryKey)) ==
      if imageUrl != "" && postSucceeds then 1 else 0
  {
    var e := InvalidateQueries(ImagesQueryKey);
    var attempt := Attempt(imageUrl, data, postSucceeds);
    CountAppend(attempt, [Reset, CloseModal], e);
    CountAppend([Reset], [CloseModal], e);
    if imageUrl != "" {
      CountAppend([attempt[0]], Outcome(postSucceeds), e);
      CountAppend([e], [ShowToast(CreatedToast)], e);
    }
  }

  /** Exactly one toast is shown: the missing-upload warning without a
      duration, the success toast for 5000 ms, or the failure toast for
      2000 ms. */
  lemma SubmitToast(imageUrl: string, data: FormValues, postSucceeds: bool)
    ensures Toasts(SubmitEffects(imageUrl, data, postSucceeds)) ==
      if imageUrl == "" then [MissingImageToast]
      else if postSucceeds then [CreatedToast]
      else [FailedToast]
    ensures CreatedToast.duration == Millis(5000) && FailedToast.duration == Millis(2000)
  {
    var attempt := Attempt(imageUrl, data, postSucceeds);
    ToastsAppend(attempt, [Reset, CloseModal]);
    ToastsAppend([Reset], [CloseModal]);
    if imageUrl != "" {
      ToastsAppend([attempt[0]], Outcome(postSucceeds));
      ToastsAppend([InvalidateQueries(ImagesQueryKey)], [ShowToast(CreatedToast)]);
    }
  }

  /** The invalidation never precedes the create request. */
  lemma SubmitInvalidatesAfterPost(imageUrl: string, data: FormValues, postSucceeds: bool, j: nat)
    requires j < |SubmitEffects(imageUrl, data, postSucceeds)|
    requires SubmitEffects(imageUrl, data, postSucceeds)[j].InvalidateQueries?
    ensures exists i :: 0 <= i < j && SubmitEffects(imageUrl, data, postSucceeds)[i].Post?
  {
    assert SubmitEffects(imageUrl, data, postSucceeds)[0].Post?;
  }

  /** Scenario: a valid title and description with a small PNG file pass
      every rule. */
  lemma ValidScenario(values: FormValues)
    requires values == FormValues([FileInfo(500000, "image/png")], "My Photo", "A nice day")
    ensures Errors(values) == map[]
  {
    PngScenario(values.image);
    TitleRule(values.title);
    DescriptionRule(values.description);
    assert Check(values, Image) == Pass;
    assert Check(values, Title) == Pass;
    assert Check(values, Description) == Pass;
    forall f ensures f !in Errors(values) {
      assert Check(values, f) == Pass;
    }
  }

  /** Scenario: a small PNG file passes the image rules. */
  lemma PngScenario(files: seq<FileInfo>)
    requires files == [FileInfo(500000, "image/png")]
    ensures CheckImage(files) == Pass
  {
    var t := files[0].mediaType;
    SubtypeDecides("png");
    assert IsAcceptedFormat("png") by {
      assert AsciiLowerString("png") == "png";
    }
    assert "image/" + "png" == t;
    assert ImageTypeAccepted(t);
    assert LessThan10Mb(files[0]) == Pass;
    assert AcceptedFormatsRule(files[0]) == Pass;
  }

  /** Scenario: a BMP file fails with the format message. */
  lemma BmpScenario(files: seq<FileInfo>)
    requires files == [FileInfo(500000, "image/bmp")]
    ensures CheckImage(files) == Fail(ImageFormatMessage)
  {
    SubtypeDecides("bmp");
    assert "image/" + "bmp" == "image/bmp";
    PatternExamples();
  }

  /** Scenario: a one-character title fails with the minimum message. */
  lemma ShortTitleScenario()
    ensures CheckText(TitleRules, "A") == Fail("Mínimo 2 caracteres.")
  {
  }
}
