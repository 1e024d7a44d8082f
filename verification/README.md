# Jewellery shop admin console — a Dafny model of its state logic

The admin console is a React single-page application. Staff use it to manage
products, categories, variations, options, media, blog posts, banners,
discounts, orders, users and site settings. Almost all of it is rendering.
Underneath, each page holds a small amount of state and changes it with
functional updates (old state to new state) that are gated by the outcome of a
server call. This project models those updates and the code around them as
pure Dafny functions over immutable values, and proves what they promise.

- **Values.** JavaScript values are the datatype `JsValue.Value`. The model
  states the language rules the pages depend on: truthiness, `||`, `?.`,
  `{ ...o, [k]: v }`, `Number(...)` and string conversion. Forms whose handlers
  are keyed by an input name are plain objects (`map<string, Value>`). Records
  whose fields the code computes with are typed datatypes.
- **Server calls.** Every service call is an oracle `Reply<T> = Ok(data) |
  NotOk | Threw`: a response with `success`, one without it, or an exception.
  The page models branch only on that outcome.
- **Session.** The session is the record `{userInfo, accessToken,
  refreshToken}`. The axios interceptor is a per-request state machine, driven
  by the server's replies and by the outcome of one refresh.
- **Outside inputs.** Dates, fresh ids and the locale date format are
  parameters.

Modules follow the program's files:

- `Session`, `Guards`, `Login`, `Header` and `AuthInterceptor`: the session and token lifecycle.
- `Pagination`, `MediaGallery`, `OrderStatus` and `OrderDetails`: index and page arithmetic.
- `Tags`, `Slug`, `BlogText` and `Previews`: string transforms.
- `Forms` with `CategoryForm`, `VariationForm`, `OptionForm`, `BannerForm`,
  `MediaForm`, `BlogForm`, `DiscountForm` and `ProductForm`: the edit pages.
- `ListUpdates`, `FilterPanel`, `SortSelect`, `ProductsPage`, `UsersPage`,
  `UserDetailsPage`, `DiscountsPage`, `BannersPage`, `CatalogLists`,
  `SettingsPage`, `ImageUploader`, `StatusIndicator` and `OrderExport`: the
  list pages and shared components.
- `Common`, `Decimal`, `Text`, `JsValue` and `Sequences`: shared definitions.

## Model

| member | source | states |
|---|---|---|
| Session.Logout | src/components/navigation/Header.jsx:20-23 | logging out clears the stored user and keeps both tokens as they are |
| Session.EndSession | src/hooks/useAxiosPrivate.js:35-39 | ending the session after a dead refresh token clears the user and sets the refresh token to null; the access token is untouched |
| Session.LogoutIdempotent | src/components/navigation/Header.jsx:20-23 | logging out, or ending the session, twice is the same as doing it once |
| Guards.AdminGuard | src/guards/AdminGuard.jsx:5-11 | protected content renders iff `userInfo.role` is "admin"; every other case, a missing user included, redirects to /login with replace |
| Guards.AuthGuard | src/guards/AuthGuard.jsx:5-13 | an admin is redirected to /admin/dashboard with replace; anyone else sees the login outlet |
| Guards.ExactlyOneOutlet | src/guards/AuthGuard.jsx:9-11 | for every session exactly one of the two guards renders its outlet |
| Guards.GuardsIgnoreTokens | src/guards/AdminGuard.jsx:6-9 | changing either token never changes either guard's decision |
| Guards.LogoutLocksOut | src/components/navigation/Header.jsx:20-23 | after logout the admin area redirects to /login and the login page is shown |
| Login.LoginTarget | src/pages/auth/Login.jsx:18 | the post-login target is `location.state.from.pathname` when it is a non-empty string, and "/" in every other case |
| Login.SubmitLogin | src/pages/auth/Login.jsx:20-45 | on success it stores user, access token and refresh token from the response and navigates to the target with replace; otherwise nothing is stored and there is no navigation; isSubmitting ends false |
| Login.AdminLoginOpensAdminArea | src/pages/auth/Login.jsx:20-45 | after an admin's login the admin guard renders its outlet and the login page redirects to the dashboard |
| Login.NonAdminLoginStaysLocked | src/pages/auth/Login.jsx:20-45 | a successful login by a non-admin still navigates, but the admin guard sends the visitor back to /login |
| Login.FailedLoginKeepsGates | src/pages/auth/Login.jsx:20-45 | a refused or thrown login leaves both guards' verdicts unchanged |
| Header.ClassNamesAllFalsy | src/components/navigation/Header.jsx:11-13 | with every argument falsy the class string is empty |
| Header.ClassNamesSkipsFalsy | src/components/navigation/Header.jsx:11-13 | a falsy argument anywhere in the list contributes nothing |
| Header.ClassNamesOfStrings | src/components/navigation/Header.jsx:11-13 | non-empty class names are joined with single spaces in argument order |
| Header.HandleLogout | src/components/navigation/Header.jsx:20-23 | logout leaves no admin user, keeps the tokens and navigates to /login |
| AuthInterceptor.PrepareRequest | src/hooks/useAxiosPrivate.js:16-26 | a request without a truthy Authorization header gets `Bearer <accessToken>` and a preset one is kept; only the add-product url gets multipart Content-Type; other headers are unchanged |
| AuthInterceptor.Dispatch | src/hooks/useAxiosPrivate.js:28-50 | one request's life: at most three events, the first a send of the prepared request; an already-retried request is sent once; a refresh happens only as the second event; the session is kept or ended |
| AuthInterceptor.CountsOfShortTrace | src/hooks/useAxiosPrivate.js:32-44 | a trace of the interceptor's shape has at most two sends and one refresh, and a second send always follows a refresh |
| AuthInterceptor.RetryAtMostOnce | src/hooks/useAxiosPrivate.js:32-48 | no request is sent more than twice and the refresh is called at most once |
| AuthInterceptor.SentRequestsAreNotRetried | src/hooks/useAxiosPrivate.js:32-48 | a request already marked `sent` is sent once and its outcome is passed on unchanged |
| AuthInterceptor.NoRefreshLoop | src/hooks/useAxiosPrivate.js:35-39 | a failing call to the refresh endpoint never triggers another refresh and is never re-sent |
| AuthInterceptor.DeadRefreshTokenEndsSession | src/hooks/useAxiosPrivate.js:32-39 | a 401 from the refresh endpoint ends the session and resolves the caller with undefined |
| AuthInterceptor.ExpiredTokenRecovered | src/hooks/useAxiosPrivate.js:41-44 | a 401 elsewhere refreshes once, re-sends the same request marked `sent` with the new bearer token, and hands the retry's outcome to the caller |
| AuthInterceptor.FailedRefreshRejects | src/hooks/useAxiosPrivate.js:41 | when the refresh fails, the request is not re-sent and the caller's promise rejects |
| AuthInterceptor.OtherOutcomesPassThrough | src/hooks/useAxiosPrivate.js:29-48 | successes and non-401 errors pass through unchanged after a single send |
| Pagination.NextPage | src/components/common/Pagination.jsx:4-8 | next moves to page+1 iff the page is below ceil(total/entries), else stays |
| Pagination.PrevPage | src/components/common/Pagination.jsx:9-13 | previous moves to page-1 iff the page is above 1, else stays |
| Pagination.WalkStaysInRange | src/components/common/Pagination.jsx:4-13 | from a page in 1..max(1, ceil(total/entries)), any sequence of next/previous stays in that range |
| Pagination.NextOnEmptyList | src/components/common/Pagination.jsx:5 | with no entries, next never changes the page |
| Pagination.LastShown | src/components/common/Pagination.jsx:20 | the last shown index is min(page*entries, total), never above the total |
| Pagination.ShownRange | src/components/common/Pagination.jsx:18-20 | on a valid page 1 <= first shown <= last shown <= total, fewer than `entries` apart, and a full page before the last one |
| MediaGallery.NextIndex | src/pages/media/MediaPage.jsx:66-72 | next moves to index+1 or wraps from the last item to 0, staying in range |
| MediaGallery.PrevIndex | src/pages/media/MediaPage.jsx:74-80 | previous moves to index-1 or wraps from 0 to the last item; on an empty list it gives -1 |
| MediaGallery.NextPrevInverse | src/pages/media/MediaPage.jsx:66-80 | next after previous, and previous after next, return to the same index |
| MediaGallery.NextTimesCompose | src/pages/media/MediaPage.jsx:66-72 | a+b presses of next are a presses followed by b presses |
| MediaGallery.FullCircle | src/pages/media/MediaPage.jsx:66-72 | n presses of next on n items return to the start |
| MediaGallery.HandleKey | src/pages/media/MediaPage.jsx:59-99 | ArrowLeft goes back, ArrowRight forward, Escape closes and resets group and index; other keys, and every key while closed, change nothing |
| MediaGallery.KeysKeepIndexInRange | src/pages/media/MediaPage.jsx:66-99 | any key sequence keeps the open viewer's index within its group |
| MediaGallery.ClosedIgnoresKeys | src/pages/media/MediaPage.jsx:84-86 | a closed viewer ignores every key sequence |
| MediaGallery.CountTypes | src/pages/media/MediaPage.jsx:107-121 | stats count exactly the items whose filetype is image, video or youtube, and their sum is the number of such items |
| MediaGallery.StatsBounded | src/pages/media/MediaPage.jsx:107-121 | the three counts add up to at most the number of media items, and to exactly that number iff every item is an image, video or youtube entry |
| MediaGallery.DeleteGroup | src/pages/media/MediaPage.jsx:45-49 | a confirmed delete keeps exactly the groups with another id, in order, one entry fewer per group carrying the id; a declined one changes nothing |
| OrderStatus.ConfigColor | src/pages/orders/OrderStatusTracker.jsx:9-84 | only the five configured statuses have a colour; billed, packed and a missing status fall back to neutral |
| OrderStatus.CurrentIndex | src/pages/orders/OrderStatusTracker.jsx:95-97 | the current index is the first step equal to the order status ignoring case, or -1 when none is |
| OrderStatus.ActiveStepsArePrefix | src/pages/orders/OrderStatusTracker.jsx:136 | the lit steps are exactly the first currentIndex+1, and an unknown status lights none |
| OrderStatus.ProgressPercent | src/pages/orders/OrderStatusTracker.jsx:124-127 | progress is 0 when the status is not found, otherwise in (0, 100], and 100 exactly at the last step |
| OrderStatus.ProgressGrows | src/pages/orders/OrderStatusTracker.jsx:124-127 | a later step has a strictly wider bar |
| OrderStatus.StatusButton | src/pages/orders/OrderStatusTracker.jsx:166-173 | a button is disabled iff it is the current status (ignoring case) or an update is loading, and it sends the lower-cased step name |
| OrderStatus.OnlyCurrentButtonDisabled | src/pages/orders/OrderStatusTracker.jsx:166-173 | with distinct step names and a known status, outside loading only the current step's button is disabled |
| OrderDetails.HandleStatusChange | src/pages/orders/OrderDetails.jsx:47-66 | on success status and updatedAt change and every other field stays; otherwise the order is unchanged, yet a non-success still shows the success toast; statusUpdating ends false |
| OrderDetails.InvoicePositions | src/pages/orders/OrderDetails.jsx:94-114 | a zero canvas size builds no PDF; otherwise the number of pages n satisfies (n-1)*297 < image height <= n*297 and page j shows the image at -j*297 |
| Tags.ParsedTagsAreClean | src/pages/media/MediaForm.jsx:186-191 | every parsed tag is non-empty, trimmed and comma-free |
| Tags.CleanTagsExact | src/pages/blog/BlogForm.jsx:109-114 | pieces that trim to the given non-empty tags parse to exactly those tags |
| Tags.TagsRoundTrip | src/pages/blog/BlogForm.jsx:43-114 | loaded array tags, joined with ", " and parsed again, give back the tags when each is trimmed, non-empty and comma-free |
| Tags.ParseJoined | src/pages/media/MediaForm.jsx:47-191 | joining clean tags with ", " and parsing gives them back |
| Tags.EmptyTagsSaveNothing | src/pages/blog/BlogForm.jsx:109-114 | an empty tags field saves an empty list |
| Slug.MakeSlug | src/pages/categories/CategoryForm.jsx:85 | the slug contains only a-z, 0-9 and '-' |
| Slug.SlugIdempotent | src/pages/categories/CategoryForm.jsx:85 | making a slug of a slug leaves it unchanged |
| Slug.SlugOfAlnum | src/pages/categories/CategoryForm.jsx:85 | ASCII letters and digits are kept, upper case lowered rather than dropped |
| Slug.SymbolBetweenWords | src/pages/categories/CategoryForm.jsx:85 | spaces become dashes before symbols are removed, so "a & b" gives "a--b" |
| BlogText.StripTagsLeavesNoTag | src/pages/blog/BlogView.jsx:44 | after stripping, no '<' is followed later by a '>' |
| BlogText.StripTagsKeepsTagFree | src/pages/blog/BlogView.jsx:44 | text without a tag is left exactly as it was, an unclosed '<' included |
| BlogText.StripTagsIdempotent | src/pages/blog/BlogView.jsx:44 | stripping twice is stripping once |
| BlogText.ReadTime | src/pages/blog/BlogView.jsx:42-47 | the read time is the least whole number of minutes at 200 words per minute covering the word count, and at least 1 |
| BlogText.ReadTimeMonotone | src/pages/blog/BlogView.jsx:43-46 | more words never mean a shorter read time |
| BlogText.ShortPostsTakeOneMinute | src/pages/blog/BlogView.jsx:43-46 | up to 200 pieces read in one minute |
| BlogText.EmptyPostReadTime | src/pages/blog/BlogView.jsx:45-46 | empty content counts one piece and one minute |
| BlogText.WordsCountOnce | src/pages/blog/BlogView.jsx:45 | words separated by single spaces are counted one each |
| BlogText.ShownBlog | src/pages/blog/BlogView.jsx:24-28 | the blog shown is `data.blog` when truthy, else `data` when truthy, else the response itself |
| BlogText.ShownBlogShapes | src/pages/blog/BlogView.jsx:24-28 | the three response shapes `{data: {blog: b}}`, `{data: b}` and `b` all show the same blog `b` |
| Previews.SubtitlePreviewOfWords | src/pages/banners/Banners.jsx:129 | a subtitle of single-spaced words is previewed as its first 18 words joined by single spaces |
| Previews.ShortSubtitleShownWhole | src/pages/banners/Banners.jsx:129 | a subtitle of at most 18 words is shown whole |
| Previews.DescriptionPreview | src/pages/products/Products.jsx:342-343 | a description of at most 50 characters is shown whole; a longer one as its first 50 characters followed by "..." |
| Previews.OptionsSummary | src/pages/variations/Variations.jsx:131-133 | the options column shows the first four option values joined by ", ", or "N/A" when there are none |
| Forms.RefusedSubmitIgnoresServer | src/pages/options/OptionForm.jsx:56-60 | a submit refused by validation issues nothing, navigates nowhere and does not depend on any server reply |
| Forms.ToggleAgreesWithStatusChange | src/pages/media/MediaForm.jsx:221-240 | the archive toggle sends the opposite status and, on success, stores the flag a status change to that status stores |
| Forms.ToggleTwice | src/pages/blog/BlogForm.jsx:138-157 | two successful toggles bring the flag back and send opposite statuses |
| Forms.SelectingRecordsStoresIds | src/pages/categories/CategoryForm.jsx:38-41 | selecting records through their options stores their `_id`s, in order |
| CategoryForm.HandleChange | src/pages/categories/CategoryForm.jsx:74-88 | an edit writes the named field; a name edit also sets the slug made from it; no other field changes |
| CategoryForm.NameEditKeepsSlugValid | src/pages/categories/CategoryForm.jsx:82-87 | after a name edit the slug is a valid slug, and repeating the edit changes nothing |
| CategoryForm.OtherEditsKeepSlug | src/pages/categories/CategoryForm.jsx:82-87 | edits to fields other than name and slug leave the slug alone |
| CategoryForm.HandleSubmit | src/pages/categories/CategoryForm.jsx:105-144 | an empty name issues no call; otherwise it updates the record with the route id when editing, or creates; it navigates to /categories only on success |
| CategoryForm.SelectProducts | src/pages/categories/CategoryForm.jsx:38-41 | productIds becomes the selected values, in order; nothing else changes |
| CategoryForm.HandleStatusChange | src/pages/categories/CategoryForm.jsx:175-186 | on success isArchived records whether the new status is "archived"; otherwise the form is unchanged |
| VariationForm.HandleSubmit | src/pages/variations/VariationForm.jsx:85-120 | an empty name issues no call; editing updates the record with the route id, otherwise it creates; it navigates to /variations only on success |
| VariationForm.LoadedOptions | src/pages/variations/VariationForm.jsx:62-63 | a loaded option appears as `{label: option.value, value: option._id}` |
| VariationForm.ReselectLoadedOptions | src/pages/variations/VariationForm.jsx:49-63 | selecting the loaded options stores the options' ids, in order |
| VariationForm.HandleDelete | src/pages/variations/VariationForm.jsx:122-136 | a successful confirmed delete resets the form to no name and no options and leaves for /variations; otherwise the form stays |
| OptionForm.HandleSubmit | src/pages/options/OptionForm.jsx:50-85 | an empty value issues no call; editing calls update with the route id, creating calls create; it navigates to /options only on success; isSubmitting ends false |
| OptionForm.HandleDelete | src/pages/options/OptionForm.jsx:87-101 | a successful confirmed delete resets the form to an empty value and leaves for /options; otherwise the form stays |
| OptionForm.SubmitSettles | src/pages/options/OptionForm.jsx:56-60 | with an empty value the outcome does not depend on the server |
| BannerForm.LoadBanner | src/pages/banners/BannerForm.jsx:30-48 | the loaded form has exactly the six fields, each the banner's value when truthy, else "" (the image {}) |
| BannerForm.IndexZeroLoadsEmpty | src/pages/banners/BannerForm.jsx:40 | a banner at index 0 loads with an empty index, because of `||` |
| BannerForm.HandleSubmit | src/pages/banners/BannerForm.jsx:90-117 | a call is issued iff title, panel, screenType and image.location are truthy; it updates the record with the route id when editing, or creates; navigation to /banners only on success |
| BannerForm.OptionalFieldsIgnored | src/pages/banners/BannerForm.jsx:95-99 | subtitle and index never decide whether a banner can be saved |
| BannerForm.HandleDelete | src/pages/banners/BannerForm.jsx:120-136 | a confirmed delete is requested; only success navigates to /banners; the busy flag always ends false |
| MediaForm.ValidateForm | src/pages/media/MediaForm.jsx:141-166 | the error map is empty iff title and description are non-blank, a youtube link is non-blank and mentions youtube.com or youtu.be, and a file exists when creating image or video; each error has its own key and message |
| MediaForm.Payload | src/pages/media/MediaForm.jsx:180-199 | the payload carries the parsed tags, the youtube link iff the filetype is youtube, and the file otherwise |
| MediaForm.HandleSubmit | src/pages/media/MediaForm.jsx:170-217 | an invalid form issues no call; a valid one sends its payload, as an update of the route id when there is one and as a create otherwise, and leaves for /media unless the call throws |
| MediaForm.LoadedTagsSaveBack | src/pages/media/MediaForm.jsx:47-191 | tags loaded from the record are saved back unchanged when each is clean |
| MediaForm.FiletypeChange | src/pages/media/MediaForm.jsx:82-93 | changing the filetype clears file, link, preview and their two errors, and keeps the rest |
| MediaForm.SwitchDemandsNewSource | src/pages/media/MediaForm.jsx:82-163 | right after a filetype change a new item cannot be saved until a new link or file is given |
| MediaForm.ArchiveToggle | src/pages/media/MediaForm.jsx:221-240 | without an id nothing happens; otherwise the opposite status is sent, and only success flips isArchived |
| BlogForm.LoadBlog | src/pages/blog/BlogForm.jsx:32-55 | a null or undefined blog throws; any other loads each field with its default and the tags joined by ", ", and drops publishedAt |
| BlogForm.AfterLoad | src/pages/blog/BlogForm.jsx:32-55 | a throwing load leaves the form as it stood; a successful one drops publishedAt |
| BlogForm.MissingBlogKeepsInitialDate | src/pages/blog/BlogForm.jsx:32-118 | when the response has no `data.blog`, a save of the new form sends publishedAt "" |
| BlogForm.SaveAfterLoad | src/pages/blog/BlogForm.jsx:39-118 | saving a freshly loaded post returns its clean tags unchanged and sends no publishedAt |
| BlogForm.HandleSubmit | src/pages/blog/BlogForm.jsx:101-134 | every submit sends the payload, as an update of the route id iff editing and a create otherwise, and leaves for /blog unless the call throws |
| BlogForm.RemoveImage | src/pages/blog/BlogForm.jsx:95-98 | removing the image clears both the image and its preview and nothing else |
| BlogForm.ArchiveToggle | src/pages/blog/BlogForm.jsx:138-157 | without an id nothing happens; otherwise the opposite status is sent and only success flips isArchived |
| DiscountForm.HandleChange | src/pages/discounts/DiscountForm.jsx:68-74 | checkboxes store `checked`, number inputs "" or `Number(value)`, others the raw value; no other field changes |
| DiscountForm.NumberInputsStoreNumbers | src/pages/discounts/DiscountForm.jsx:72 | a number input always stores a number, NaN or "" |
| DiscountForm.Validate | src/pages/discounts/DiscountForm.jsx:82-110 | checks run in order: required fields, parseable dates, start before end, percentage in (0, 100], fixed above 0; each failure is reported iff every earlier check passed and its own fails, and passing is exactly all of them |
| DiscountForm.PercentageInRange | src/pages/discounts/DiscountForm.jsx:82-105 | a saved percentage lies in 1..100, and a value of 0 counts as missing |
| DiscountForm.Payload | src/pages/discounts/DiscountForm.jsx:113-119 | discountValue becomes a number, empty min/max amounts become null, dates are sent parsed, and the other fields are copied |
| DiscountForm.HandleSubmit | src/pages/discounts/DiscountForm.jsx:76-137 | a failed check issues no call; a passing form sends the payload, as an update of the route id when editing and a create otherwise, and leaves for /discounts unless the call throws |
| ProductForm.OptionsRoundTrip | src/pages/products/ProductForm.jsx:59-117 | string lists turned into options on load come back unchanged on submit |
| ProductForm.ValuesRoundTrip | src/pages/products/ProductForm.jsx:59-117 | options of the form `{label: x, value: x}` survive the trip through their values |
| ProductForm.LoadVariantItem | src/pages/products/ProductForm.jsx:61-72 | an object item gets the fresh itemId and its specs rewritten to the referenced `_id`s with fresh spec ids, every other key kept; anything else, or specs that cannot be mapped, throws |
| ProductForm.LoadVariantItems | src/pages/products/ProductForm.jsx:61-73 | absent variant items load as undefined; a list loads item by item with the k-th fresh ids, and throws if any item does |
| ProductForm.LoadedItemIdsDistinct | src/pages/products/ProductForm.jsx:61-73 | with a non-repeating id source, the loaded items carry pairwise different ids |
| ProductForm.LoadProduct | src/pages/products/ProductForm.jsx:54-76 | the load succeeds iff the three lists and the variant items convert; it sets those four fields and keeps every other field of the record |
| ProductForm.SaveAfterLoad | src/pages/products/ProductForm.jsx:51-149 | when the load succeeds, careTips, features and tags of the product are saved back unchanged |
| ProductForm.HandleSubmit | src/pages/products/ProductForm.jsx:101-149 | a call is issued iff name and price are truthy and the lists convert; it updates the record with the route id when editing, or creates; it leaves for /products unless the call throws |
| ProductForm.AddVarItem | src/pages/products/ProductForm.jsx:158-174 | exactly one blank item with the fresh id is appended |
| ProductForm.RemoveVarItem | src/pages/products/ProductForm.jsx:176-182 | exactly the items with that id are removed, the rest kept in order and with their multiplicity |
| ProductForm.ReplaceVarItem | src/pages/products/ProductForm.jsx:441-450 | only the items with that id are replaced and the length is kept |
| ProductForm.RemoveUndoesAdd | src/pages/products/ProductForm.jsx:158-182 | removing a freshly added item gives back the list |
| ProductForm.RemoveAfterReplace | src/pages/products/ProductForm.jsx:176-182 | replacing an item and then removing it is the same as removing it |
| ProductForm.AddSpec | src/pages/products/ProductForm.jsx:556-570 | one blank spec with the fresh id is appended and the item's other fields are kept |
| ProductForm.RemoveSpec | src/pages/products/ProductForm.jsx:572-578 | exactly the specs with that id are removed, the rest kept in order and with their multiplicity; the other fields are kept |
| ProductForm.ReplaceSpec | src/pages/products/ProductForm.jsx:652-660 | only the specs with that id are replaced and the item's other fields are kept |
| ProductForm.RemoveSpecUndoesAdd | src/pages/products/ProductForm.jsx:556-578 | removing a freshly added spec gives back the item |
| ProductForm.HandleChange | src/pages/products/ProductForm.jsx:92-98 | the named field receives `checked` for a checkbox and the value otherwise; no other field changes |
| ProductForm.FeaturedCheckboxMissesFlag | src/pages/products/ProductForm.jsx:352-358 | the Featured checkbox writes `featured`, so the `isFeatured` it displays keeps its old value |
| ProductForm.FeaturedCheckboxFixedShowsClick | src/pages/products/ProductForm.jsx:352-358 | with the input named `isFeatured`, the box shows the clicked state |
| ProductForm.HandleStatusChange | src/pages/products/ProductForm.jsx:199-210 | on success isArchived records whether the new status is "archived"; otherwise the form is unchanged |
| ListUpdates.DeleteOnServer | src/pages/options/Options.jsx:41-54 | a declined delete sends nothing; after success exactly the records with another `_id` remain, in order, the length dropping by the number of matches; otherwise the list is unchanged |
| ListUpdates.DeleteLocally | src/pages/categories/Categories.jsx:37-42 | a confirmed local delete keeps exactly the records with another `_id`, in order, the length dropping by the number of matches; a declined one changes nothing |
| ListUpdates.DeleteTwice | src/pages/variations/Variations.jsx:46-48 | a second successful delete of the same id changes nothing |
| ListUpdates.SetFlagTwice | src/pages/products/Products.jsx:128-132 | setting a record's flag to the same value twice is setting it once |
| ListUpdates.ButtonFlipsFlag | src/pages/users/Users.jsx:85-101 | pressing a row's status button and getting success flips the flag that row shows |
| FilterPanel.UpdateFilter | src/pages/orders/Orders.jsx:37-40 | a panel edit changes only the named draft field; applied filters and page stay |
| FilterPanel.Apply | src/pages/products/Products.jsx:38-40 | apply makes the applied filters equal to the draft |
| FilterPanel.Reset | src/pages/users/Users.jsx:46-58 | reset sets draft and applied to the defaults and the page to 1 |
| FilterPanel.Query | src/pages/orders/Orders.jsx:52-62 | the fetch parameters take each applied filter over the fixed parameters |
| FilterPanel.DraftEditsDoNotReachQuery | src/pages/products/Products.jsx:33-78 | draft edits do not change the fetch until applied |
| FilterPanel.AppliedDraftReachesQuery | src/pages/orders/Orders.jsx:42-62 | after apply every draft filter reaches the fetch |
| FilterPanel.ResetForgetsFilters | src/pages/orders/Orders.jsx:46-50 | after reset the fetch no longer depends on earlier panel edits |
| FilterPanel.ResetClears | src/pages/users/Users.jsx:46-58 | the users page resets every filter to ""; the products and orders pages reset theirs to null |
| SortSelect.ParseSort | src/pages/products/Products.jsx:216-219 | the chosen value is split on '-'; sortBy is the first piece and has no '-' |
| SortSelect.ParseSortWithoutDash | src/pages/orders/Orders.jsx:213-216 | a value without '-' gives that value as sortBy and an undefined sortOrder |
| SortSelect.ParseSortValue | src/pages/orders/Orders.jsx:212-216 | every option `${sortBy}-${sortOrder}` splits back into its field and order |
| SortSelect.ParseSortDropsExtraPieces | src/pages/products/Products.jsx:217 | only the first two pieces of a value with more dashes are used |
| ProductsPage.HandleStatusChange | src/pages/products/Products.jsx:123-139 | on success isArchived is set on the products with that `_id` and no other product changes; non-success leaves the list; the length is kept |
| ProductsPage.HandleDelete | src/pages/products/Products.jsx:141-146 | a confirmed local delete keeps exactly the products with another `_id`, in order, the length dropping by the number of matches; a declined one changes nothing |
| ProductsPage.StockLabelOf | src/pages/products/Products.jsx:364-368 | above 5 "In Stock", above 0 "Low on stock", otherwise "Out of Stock", with JavaScript's numeric comparison |
| ProductsPage.StockLabelOfCount | src/pages/products/Products.jsx:364-368 | for a whole-number stock, the label is In Stock iff n > 5, Low iff 1 <= n <= 5, Out iff n <= 0 |
| ProductsPage.MissingStockIsOut | src/pages/products/Products.jsx:364-368 | a missing, null or non-numeric stock reads as out of stock |
| UsersPage.BlockTarget | src/pages/users/Users.jsx:254 | the button sends "unblocked" for a blocked user and "blocked" otherwise |
| UsersPage.HandleStatusChange | src/pages/users/Users.jsx:85-101 | on success isBlocked = (status is "blocked") only for the users with that `_id`; non-success leaves the list |
| UsersPage.ButtonTogglesUser | src/pages/users/Users.jsx:85-101 | pressing a user's button and getting success shows the opposite state |
| UserDetailsPage.TotalSpent | src/pages/users/UserDetails.jsx:174-178 | an empty history has spent 0 |
| UserDetailsPage.TotalSpentIsSum | src/pages/users/UserDetails.jsx:174-178 | the running total from the left equals the sum of the order amounts |
| UserDetailsPage.TotalSpentAppend | src/pages/users/UserDetails.jsx:174-178 | the total of two histories together is the total of each added |
| UserDetailsPage.BlockTarget | src/pages/users/UserDetails.jsx:103 | the button sends "unblocked" exactly when the user is blocked, "blocked" otherwise |
| UserDetailsPage.HandleStatusChange | src/pages/users/UserDetails.jsx:47-64 | on success isBlocked = (status is "blocked") and every other field is kept; otherwise the user is unchanged |
| UserDetailsPage.ToggleTwice | src/pages/users/UserDetails.jsx:47-103 | two successful presses of the button bring the shown state back |
| DiscountsPage.Filtered | src/pages/discounts/Discounts.jsx:38-49 | the shown discounts are an order-preserving subsequence, as long as the number of matches: exactly those whose code or description contains the search ignoring case and that match the status choice |
| DiscountsPage.NoFilterShowsAll | src/pages/discounts/Discounts.jsx:38-49 | no search and no status show every discount |
| DiscountsPage.StatusChoicesPartition | src/pages/discounts/Discounts.jsx:43-46 | "active" and "inactive" split the discounts the search finds, with no overlap |
| DiscountsPage.RemoveAsWritten | src/pages/discounts/Discounts.jsx:58 | keeps exactly the discounts whose `id` property differs from the passed `_id`, in order, the length dropping by the number of matches |
| DiscountsPage.RemoveAsWrittenKeepsDeleted | src/pages/discounts/Discounts.jsx:58 | the local removal compares `id`, so records without that property are never removed |
| DiscountsPage.Remove | src/pages/discounts/Discounts.jsx:52-66 | removing by `_id` keeps exactly the other discounts, in order, the length dropping by the number of matches |
| DiscountsPage.RemoveDropsDeleted | src/pages/discounts/Discounts.jsx:52-66 | removing by `_id` takes the deleted discount off the list |
| DiscountsPage.HandleDelete | src/pages/discounts/Discounts.jsx:52-66 | a declined delete sends nothing; after success the re-fetched list is shown, or without it the discounts whose `id` property differs from the passed `_id`, in order; otherwise the list stays |
| DiscountsPage.HandleDeleteKeepsDeleted | src/pages/discounts/Discounts.jsx:52-66 | when the re-fetch fails, a list of records without `id` stays exactly as it was, the deleted discount included |
| DiscountsPage.HandleDeleteFixed | src/pages/discounts/Discounts.jsx:52-66 | with the removal by `_id`: after success and a failed re-fetch exactly the discounts with another `_id` remain, in order |
| DiscountsPage.HandleDeleteFixedDropsDeleted | src/pages/discounts/Discounts.jsx:52-66 | with the removal by `_id`, the deleted discount leaves the page even when the re-fetch fails |
| BannersPage.Filtered | src/pages/banners/Banners.jsx:25-33 | the shown banners are an order-preserving subsequence, as long as the number of matches: title or subtitle contains the search ignoring case, and the screen filter is empty or equals screenType |
| BannersPage.NoFilterShowsAll | src/pages/banners/Banners.jsx:25-33 | no search and no screen filter show every banner |
| BannersPage.HandleDelete | src/pages/banners/Banners.jsx:36-49 | only a successful confirmed delete changes the list: it keeps exactly the banners with another `_id`, in order, the length dropping by the number of matches |
| CatalogLists.DeleteVariation | src/pages/variations/Variations.jsx:41-54 | a declined delete sends nothing; success keeps exactly the variations with another `_id`, in order, the length dropping by the number of matches; otherwise the list is unchanged |
| CatalogLists.DeleteOption | src/pages/options/Options.jsx:41-54 | a declined delete sends nothing; success keeps exactly the options with another `_id`, in order, the length dropping by the number of matches; otherwise the list is unchanged |
| CatalogLists.DeleteCategory | src/pages/categories/Categories.jsx:37-42 | a confirmed delete keeps exactly the categories with another `_id`, in order, the length dropping by the number of matches; a declined one changes nothing |
| CatalogLists.ProductCount | src/pages/categories/Categories.jsx:114 | the shown count is the length of a productIds list or text, an object's own `length`, and nothing for anything else |
| CatalogLists.SavedSelectionCounted | src/pages/categories/Categories.jsx:114 | a category saved with k products chosen in its form shows k products |
| SettingsPage.HandleChange | src/pages/settings/Settings.jsx:60-68 | an edit changes exactly `settings[section][field]`; other fields and sections stay |
| SettingsPage.HandleShippingMethodChange | src/pages/settings/Settings.jsx:70-81 | a shipping edit keeps the list length and changes only that field of that method |
| SettingsPage.EditsCommute | src/pages/settings/Settings.jsx:60-68 | edits to two different sections can be made in either order |
| SettingsPage.HandleSubmit | src/pages/settings/Settings.jsx:83-108 | the site update goes first and a thrown one stops the shipping update; results are stored only when both succeed; otherwise settings stay; isSubmitting ends false |
| ImageUploader.AddImages | src/components/common/MultiImageUploader.jsx:17-22 | a successful upload gives the existing images followed by the uploaded ones; otherwise nothing changes |
| ImageUploader.RemoveImage | src/components/common/MultiImageUploader.jsx:28-31 | removing a valid index drops exactly that image and keeps the order; an out-of-range index changes nothing |
| ImageUploader.RemoveUploaded | src/components/common/MultiImageUploader.jsx:17-31 | removing the last image once per uploaded image gives back the images from before the upload |
| ImageUploader.RemovingPrimaryPromotesNext | src/components/common/MultiImageUploader.jsx:28-65 | removing the primary image makes the second image primary |
| StatusIndicator.BadgeOf | src/components/common/StatusIndicator.jsx:15 | kind "archive" shows Archived for a truthy value and Active for a falsy one; any other kind shows Unknown |
| StatusIndicator.ColourMatchesBadge | src/components/common/StatusIndicator.jsx:7-15 | red, green and gray correspond one-to-one with Archived, Active and Unknown |
| OrderExport.RowOf | src/utils/exportUtil.js:6-19 | Customer Name is first name, a space and last name; id, contact, payment, status, delivery and amount are copied; Order Date and Expected Delivery are the locale texts of the two dates; Items is the item text |
| OrderExport.Rows | src/utils/exportUtil.js:5 | one row per order, in input order |
| OrderExport.RowsAppend | src/utils/exportUtil.js:5 | exporting two lists of orders gives the rows of the first followed by the rows of the second |
| OrderExport.ItemsTextShape | src/utils/exportUtil.js:18 | no items give "", one item `name (xqty)`, and item groups are separated by exactly ", " |

## Left out

- Rendering, CSS classes, icons, toasts, console output and React effect
  plumbing are left out. That includes interceptor registration and eject,
  and the refetch that `Categories` runs whenever its search changes. Only
  the navigation target of a page is kept.
- The HTTP services and axios clients are oracles. A service that swallows
  its error and returns it looks like a non-success reply.
- `useRefreshToken` is not part of this model. Its outcome is a parameter,
  and the store update it makes is not modelled. The Redux slices are not
  part of this model either; logout is modelled as clearing `userInfo` only.
- Numbers are integers. Floating point, `toFixed`, `parseFloat` and decimal
  input are not modelled. `Number(...)` of text accepts only an optionally
  signed run of decimal digits. `Number` of an array is taken as NaN.
- `toLowerCase` is modelled for ASCII letters only, and strings are
  sequences of characters rather than UTF-16 code units.
- Dates are day numbers. `new Date(...)` is the `parseDate` parameter and
  `toLocaleString` is the `localeDate` parameter of the export.
- The YouTube id regular expression, `crypto.randomUUID` (a fresh-id
  parameter), html2canvas, jsPDF, XLSX and file-saver are left out. The
  invoice keeps only its page loop, over real numbers.
- Concurrent refreshes and interleaved async updates are not modelled. Each
  handler runs to completion on the state it started from.
- Fetch-and-load effects are modelled only where a form turns the fetched
  record into its state: the banner, blog and product loads, the
  variation's loaded options and the media form's tags. The category,
  option and discount form loads, the rest of the media form load, and the
  fetches of the list pages are left out.
- The dashboard, invoice content, sidebar, layouts, ImageUpload, the
  endpoint constants, the route table, BlogPage, and the discount form's
  delete button are not part of this model.
- Pagination.NextPage: requires entries > 0. The page-size select only offers
  positive sizes; a zero size would divide by zero.
- SettingsPage.HandleShippingMethodChange: requires that `shipping` is a list
  and that the index is one of its positions. The page calls it only from the
  rows it draws for that list. Writing past the end, which would grow the
  array, is not modelled.
- SettingsPage.HandleChange: spreading a list or a string into an object is
  taken to give no keys. JavaScript would copy their indices. The page only
  edits the `site` object with it.
- ImageUploader.AddImages: the uploaded files are taken to be a list. A
  success reply without `files` would throw in the page.
- BannersPage.Filtered and DiscountsPage.Filtered: title, subtitle, code and
  description are taken to be strings. Other values would make the page's
  `toLowerCase` throw.
- UserDetailsPage.TotalSpent: order amounts are integers. Non-numeric
  amounts, which would turn the JavaScript sum into text or NaN, are not
  modelled.
- ProductForm.LoadVariantItem: an array entry in `variantItems` is taken to
  throw, because the value model gives arrays no named properties;
  JavaScript would set `specs` and `itemId` on it.
- Login.LoginTarget: a truthy `from.pathname` that is not a string gives
  "/" here, while the page would hand it to `navigate` unchanged; the router
  stores only string paths there.
- Tags.LoadTags: loaded tags that are neither a list nor text load as "".

## Findings

| source | as written | input that shows it | evidently intended | confidence | as-written member | corrected member |
|---|---|---|---|---|---|---|
| src/pages/discounts/Discounts.jsx:58 | after a successful delete the list keeps the discounts whose `id` differs from the `_id` the button passed | a list of server records, which carry `_id` but no `id`; deleting any of them leaves the list as it was until the re-fetch arrives, and for good if the re-fetch fails | remove the discounts whose `_id` equals the id, as every other list page does | not executed | DiscountsPage.HandleDeleteKeepsDeleted | DiscountsPage.HandleDeleteFixedDropsDeleted |
| src/pages/products/ProductForm.jsx:352-358 | the Featured checkbox is named `featured` but displays `formData.isFeatured`, so `handleChange` writes a field the box never reads | a product with isFeatured false; clicking the box stores featured = true and the box stays unticked | name the input `isFeatured`, so the click updates the flag the box displays and the payload sends | not executed | ProductForm.FeaturedCheckboxMissesFlag | ProductForm.FeaturedCheckboxFixedShowsClick |
