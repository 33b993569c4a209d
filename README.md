# Image gallery: upload rules, submission workflow and gallery view state

A model in Dafny of the two pieces of logic in a small browser image gallery.

- **The upload form (`FormAddImage`).**
  - The media-type check `imageFormatValidation`. It splits the declared type on `/`. The first piece must be exactly `image`. The second piece must match the anchored pattern `jpg|jpeg|gif|png`, where each letter position is a two-letter class.
  - The declarative field rules. The file must be smaller than 10 000 × 1024 bytes and have an accepted type. The title is required and has 2 to 20 characters. The description is required and has at most 65 characters.
  - The `onSubmit` workflow. Its effects are recorded as a sequence: toasts, the create request, the cache invalidation, the form reset and the modal close.
- **The gallery grid (`CardList`).**
  - It renders one card per image.
  - Its overlay state is the URL last asked for plus an open flag. Viewing a card stores its URL and opens the overlay. Closing clears only the flag.

Files:
- `js_split.dfy` (module `JsSplit`): JavaScript's `split` for a one-character separator, with its round trips.
- `form_add_image.dfy` (module `FormAddImage`): the media-type check, the rules, the `onSubmit` effect sequence, and the properties of each.
- `card_list.dfy` (module `CardList`): the rendering correspondence, the overlay transitions, and a `CardList` class whose methods update the state in place.

Inputs the code takes from outside become parameters:
- The outcome of the create request is the boolean `postSucceeds`.
- The URL produced by the upload is the string `imageUrl`. It is empty until the upload completes.

## Model

| member | source | states |
|---|---|---|
| `JsSplit.TakeUntil` | src/components/Form/FormAddImage.tsx:29 | the first piece of `type.split('/')` is a prefix of the input, holds no separator, and is followed by a separator or by the end |
| `JsSplit.Split` | src/components/Form/FormAddImage.tsx:29 | `split` always yields at least one piece, and no piece contains the separator |
| `JsSplit.JoinSplit` | src/components/Form/FormAddImage.tsx:29 | gluing the pieces back with the separator gives the original string |
| `JsSplit.SplitJoin` | src/components/Form/FormAddImage.tsx:29 | splitting a join of separator-free pieces gives back exactly those pieces |
| `JsSplit.SplitCons` | src/components/Form/FormAddImage.tsx:29 | a separator-free piece followed by the separator splits off as the first piece, and the rest splits independently |
| `JsSplit.SplitCount` | src/components/Form/FormAddImage.tsx:29 | there is one piece more than there are separators |
| `JsSplit.SplitFront` | src/components/Form/FormAddImage.tsx:29 | the destructured `fileType` is the text before the first `/`; `fileFormat` exists iff the string contains `/`, and is then the text up to the next `/` |
| `FormAddImage.FormatsRegexTest` | src/components/Form/FormAddImage.tsx:26-33 | `formatsRegex.test` accepts a string iff, after ASCII lower-casing, it is jpg, jpeg, gif or png |
| `FormAddImage.PatternExamples` | src/components/Form/FormAddImage.tsx:26-27 | `PnG` and `JPEG` match; `pngx`, `bmp` and `svg+xml` do not |
| `FormAddImage.ImageFormatValidation` | src/components/Form/FormAddImage.tsx:25-34 | the check accepts a type iff it starts with `image/` (case-sensitively) and the text up to the next `/` is an accepted format in any letter case |
| `FormAddImage.ImageFormatValidationMeans` | src/components/Form/FormAddImage.tsx:29-33 | split, compare the first piece with `image`, and test the second piece, or `undefined` if there is none: this accepts exactly the types the reference reading accepts |
| `FormAddImage.TypeComparedExactly` | src/components/Form/FormAddImage.tsx:31 | `IMAGE/<anything>` is rejected, because the type is compared with `image` exactly |
| `FormAddImage.SubtypeDecides` | src/components/Form/FormAddImage.tsx:26-33 | `image/<s>` with `s` free of `/` is accepted iff `s` is jpg, jpeg, gif or png in any case |
| `FormAddImage.LaterPiecesIgnored` | src/components/Form/FormAddImage.tsx:29-33 | `image/<s>/<rest>` gets the same answer as `image/<s>`, so `image/png/x` is accepted |
| `FormAddImage.NoSlashRejected` | src/components/Form/FormAddImage.tsx:29-33 | a type without `/` is rejected |
| `FormAddImage.CheckText` | src/components/Form/FormAddImage.tsx:48-65 | a text rule passes only a non-empty value; a failure always carries one of the rule's own messages |
| `FormAddImage.TitleRule` | src/components/Form/FormAddImage.tsx:48-58 | a title passes iff it has 2 to 20 characters; empty, one-character and over-20 titles fail with the required, minimum and maximum messages |
| `FormAddImage.DescriptionRule` | src/components/Form/FormAddImage.tsx:59-65 | a description passes iff it has 1 to 65 characters; empty and over-65 descriptions fail with the required and maximum messages |
| `FormAddImage.LessThan10Mb` | src/components/Form/FormAddImage.tsx:40-41 | the size rule passes iff the size is below 10 240 000 bytes, and otherwise fails with the 10MB message |
| `FormAddImage.SizeBoundary` | src/components/Form/FormAddImage.tsx:40-41 | exactly 10 240 000 bytes fails, and 10 239 999 bytes passes |
| `FormAddImage.AcceptedFormatsRule` | src/components/Form/FormAddImage.tsx:43-45 | the format rule passes iff the file's type is accepted, and otherwise fails with the PNG/JPEG/GIF message |
| `FormAddImage.CheckImage` | src/components/Form/FormAddImage.tsx:37-47 | the image field passes iff a file is selected, is under the size limit and has an accepted type; no file fails `required`; an oversized file fails with the size message; a file under the limit with another type fails with the format message |
| `FormAddImage.Errors` | src/components/Form/FormAddImage.tsx:131-149 | a field has an inline error iff its rules fail, and the error is the message of the failing rule |
| `FormAddImage.FormAccepted` | src/components/Form/FormAddImage.tsx:36-66 | the form has no errors iff the file is under the limit with an accepted type, the title has 2–20 characters and the description 1–65 |
| `FormAddImage.ValidScenario` | src/components/Form/FormAddImage.tsx:36-66 | a 500 000-byte `image/png` file with title "My Photo" and description "A nice day" passes every rule |
| `FormAddImage.PngScenario` | src/components/Form/FormAddImage.tsx:37-47 | a 500 000-byte `image/png` file passes the image rules |
| `FormAddImage.BmpScenario` | src/components/Form/FormAddImage.tsx:43-45 | an `image/bmp` file fails with the format message |
| `FormAddImage.ShortTitleScenario` | src/components/Form/FormAddImage.tsx:50-53 | the title "A" fails with "Mínimo 2 caracteres." |
| `FormAddImage.OnSubmit` | src/components/Form/FormAddImage.tsx:80-116 | the try/catch/finally procedure produces exactly the effects of `SubmitEffects`: guard toast or request and outcome, then reset and close |
| `FormAddImage.HandleSubmit` | src/components/Form/FormAddImage.tsx:119 | with any field error nothing happens; otherwise `onSubmit` runs; exactly one request is sent iff the form is valid and the URL is non-empty |
| `FormAddImage.SubmitPosts` | src/components/Form/FormAddImage.tsx:82-97 | with an empty URL no request is sent; otherwise exactly one is sent, carrying `{title, description, url: imageUrl}` |
| `FormAddImage.SubmitAlwaysResetsAndCloses` | src/components/Form/FormAddImage.tsx:81-115 | on every path, including the guard's early `return`, reset and close each happen exactly once, as the last two effects and in that order |
| `FormAddImage.SubmitInvalidatesOnlyOnSuccess` | src/components/Form/FormAddImage.tsx:69-74 | `'images'` is invalidated once when the request succeeds, and never on failure or on the guard path |
| `FormAddImage.SubmitToast` | src/components/Form/FormAddImage.tsx:83-111 | exactly one toast is shown: the missing-upload error (no duration), the success toast (5000 ms) or the failure toast (2000 ms) |
| `FormAddImage.SubmitInvalidatesAfterPost` | src/components/Form/FormAddImage.tsx:69-97 | an invalidation is always preceded by the create request |
| `CardList.Render` | src/components/CardList.tsx:31-37 | one element per card, in order; each is keyed by the card's `id`, shows that card, and its view callback passes that card's own `url` |
| `CardList.RenderAppend` | src/components/CardList.tsx:31-37 | rendering a concatenation renders each part in turn |
| `CardList.RenderKeysDistinct` | src/components/CardList.tsx:33 | the rendered keys are distinct iff the card ids are |
| `CardList.Step` | src/components/CardList.tsx:23-26 | after a step the overlay is open iff the step was a view; a view stores its URL, and a close keeps the stored URL |
| `CardList.RunMeaning` | src/components/CardList.tsx:19-43 | after any history the stored URL is the last one viewed (or the initial one), and the overlay is open iff the last action was a view |
| `CardList.LastViewWins` | src/components/CardList.tsx:24 | viewing A then B leaves B selected and open; closing then keeps B |
| `CardList.CardList.constructor` | src/components/CardList.tsx:19-21 | the initial state has an empty selected URL and the overlay closed |
| `CardList.CardList.OnOpen` | src/components/CardList.tsx:21 | opening sets the flag and leaves the URL alone |
| `CardList.CardList.OnClose` | src/components/CardList.tsx:39-43 | closing clears only the open flag and keeps the last URL |
| `CardList.CardList.HandleViewImage` | src/components/CardList.tsx:23-26 | `handleViewImage(u)` sets the selected URL to exactly `u` and opens the overlay |
| `CardList.CardList.ViewCard` | src/components/CardList.tsx:35 | a card's view callback selects that card's URL and opens the overlay |

## Left out

- JSX rendering, the UI library's layout components, and how toasts are displayed. A toast is recorded as an effect with its title, description, status and duration.
- The form library's internals. The model keeps only what the rules mean and the fact that `handleSubmit` calls `onSubmit` when no field has an error. Within a text field, the maximum-length check comes before the minimum-length check. Within the image field, the `validate` entries run in declaration order. Focus handling, `setError` and `trigger` are not modelled.
- `api.post`, its HTTP transport, and the query library's cache. The request's outcome is the input `postSucceeds`. `invalidateQueries('images')` is a recorded effect. The mutation's `onSuccess` is taken to complete before `mutateAsync` resolves.
- `FileInput`, the upload that produces `imageUrl`, and `localImageUrl` are not part of this model. Their code is not available.
- Promise scheduling, and disabling the submit button while `isSubmitting` is set. Both belong to the form library and the event loop.
- The `useDisclosure` internals. Only `onOpen` and `onClose` are modelled, as writes to a boolean.
- `Card` and `ModalViewImage` are not part of this model. They receive the values this model computes.
- String lengths: the model counts Unicode scalar values, while JavaScript counts UTF-16 code units. The two differ only for characters outside the Basic Multilingual Plane.
- Letter case: "any letter case" means ASCII lower-casing. The pattern's character classes hold only the ASCII letters, and the model reproduces them exactly.
- `reset()` clears only the form's registered values. `imageUrl` is component state that `onSubmit` never clears.
- Each field is registered with its rules (src/components/Form/FormAddImage.tsx lines 131, 140 and 149), so the model applies them.
