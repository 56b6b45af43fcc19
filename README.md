# Victus back ends, modelled in Dafny

Victus is a course-library service with two interchangeable REST back ends: a
Node/Express server (`server/`) and a plain PHP server (`server_php/`). This
project models the parts of both that make decisions:

- the PHP JWT codec (`JWT::encode` / `JWT::decode`, base64url on top of PHP's
  non-strict `base64_decode`), modules `Base64` and `Jwt`;
- the two bearer-token guards: PHP's `requireAuth` with its
  `/Bearer\s+(.*)$/i` regex and the global `$current_user` (`PhpAuth`), and
  Node's `authMiddleware` (`JsAuth`);
- the course and lesson handlers of both back ends: left-join reads, the
  upserts into `user_lessons`, and Node's course-progress recompute
  (`Catalog`, `CourseJs`, `CoursePhp`);
- the PHP router: path normalisation, `:param` patterns as PCRE matches them,
  first-match dispatch and the registered route table (`Router`);
- the PHP `.env` loader (`EnvLoader`);
- login, registration and profile in both back ends over the `users` table
  (`Users`, `AuthJs`, `AuthPhp`).

Tables are Dafny values. The catalogue (`courses`, `lessons`) is a sequence in
storage order. The per-user tables are maps keyed by (user id, lesson id) or
(user id, course id). `users` is a sequence of rows plus the next
AUTO_INCREMENT value. Handlers that write are methods on classes holding those
tables. Reads are functions.

Several things become parameters: HMAC-SHA256, the JSON codec, bcrypt,
jsonwebtoken's `sign` and `verify`, the secret key and the clock. Where a
proof needs something of them, a predicate in a `requires` names it:

- `Jwt.RoundTrips`: parsing serialized JSON gives it back.
- `Users.Sound`: a password verifies against its own hash.
- `AuthJs.Accepts`: a token signed with a positive lifetime, over claims that hold none of `exp`, `nbf` and `iat`, verifies and carries those claims when it is verified at the time of signing. `sign` and `verify` take no clock, so the lemmas built on it speak of that moment, not of the whole seven days. It says nothing about an expired lifetime or a payload that sets those times, which jsonwebtoken refuses.

PHP's falsiness is modelled: `""` and `"0"` are empty. An empty array decoded
from a token is falsy too.

## Model

| member | source | states |
|---|---|---|
| Base64.Sextets | server_php/utils/JWT.php:53-56 | base64 splits every 3 bytes into 4 sextets; a final 1 or 2 bytes gives 2 or 3 sextets |
| Base64.DecodeSextetsOfSextets | server_php/utils/JWT.php:53-61 | reassembling the sextets of a byte string gives exactly the bytes back |
| Base64.RtrimPadding | server_php/utils/JWT.php:55 | `rtrim(..., '=')` removes exactly the padding that `base64_encode` appended |
| Base64.UrlEncode | server_php/utils/JWT.php:53-56 | `base64UrlEncode` is the URL-safe alphabet over the sextets, with no padding |
| Base64.StdSextetsOfStdChars | server_php/utils/JWT.php:58-61 | non-strict decoding reads back every character of the standard alphabet |
| Base64.UrlDecode | server_php/utils/JWT.php:58-61 | three bytes come out per four alphabet characters, rounding down; characters outside the alphabet are skipped, so n base64url characters give 3n/4 bytes |
| Base64.UrlDecodeEncode | server_php/utils/JWT.php:53-61 | `base64UrlDecode(base64UrlEncode(b)) == b` for every byte string |
| Base64.UrlEncodeAlphabet | server_php/utils/JWT.php:53-56 | an encoding never contains `+`, `/`, `=` or `.` |
| Jwt.Encode | server_php/utils/JWT.php:12-21 | the token has exactly three `.`-separated segments: the fixed header, base64url of the payload JSON, and the MAC of "header.payload" |
| Jwt.EncodeAlphabet | server_php/utils/JWT.php:12-21 | an issued token holds only base64url characters and dots, and at least one dot |
| Jwt.Decode | server_php/utils/JWT.php:23-51 | null unless there are three segments, a matching signature, a payload that parses and no integer `exp` before now; otherwise the parsed payload |
| Jwt.DecodeEncode | server_php/utils/JWT.php:12-51 | `decode(encode(p)) == p` under the same key, unless `p` has expired |
| Jwt.ExpiryBoundary | server_php/utils/JWT.php:46-48 | the expiry test is a strict `<`: the token is accepted at second `exp` and refused at `exp + 1` |
| Jwt.NeverExpires | server_php/utils/JWT.php:46 | a payload without `exp` is accepted at every time |
| Jwt.ForgedSignatureRefused | server_php/utils/JWT.php:35-41 | any third segment other than the MAC of the first two is refused |
| Jwt.HeaderNotInspected | server_php/utils/JWT.php:32-43 | the header segment is only signed over: two correctly signed tokens differing only in the header decode alike |
| PhpAuth.HeaderSpellings | server_php/middleware/auth.php:8-13 | the header is read under either spelling, `Authorization` decides when both are sent, and a request with neither gets 401 "Token não fornecido" |
| PhpAuth.MatchesAtSound | server_php/middleware/auth.php:17 | a match attempt at offset i succeeds exactly when `Bearer\s+(.*)$` (case-insensitive) matches there, with the longest `\s` run |
| PhpAuth.ExtractBearer | server_php/middleware/auth.php:16-19 | null exactly when `/Bearer\s+(.*)$/i` matches nowhere; otherwise the group of the leftmost, greedy match |
| PhpAuth.ExtractFromSound | server_php/middleware/auth.php:17-19 | the extracted token is the capture of the leftmost match, and no match gives null |
| PhpAuth.BearerPrefix | server_php/middleware/auth.php:17-19 | "Bearer " followed by a token without white space yields that token |
| PhpAuth.Authenticate | server_php/middleware/auth.php:6-36 | a falsy header gives 401 "Token não fornecido"; a header with no match or an empty capture gives 401 "Formato de token inválido"; every rejection is a 401; authentication happens only with a decoded, non-empty payload of the extracted token |
| PhpAuth.DecodeFailuresAlike | server_php/middleware/auth.php:26-29 | a bad signature and an expired token give the same 401 "Token inválido ou expirado" |
| PhpAuth.BearerTokenDecides | server_php/middleware/auth.php:8-36 | "Bearer t" is decided by decoding t alone |
| PhpAuth.IssuedTokenAuthenticates | server_php/middleware/auth.php:8-36 | a token `JWT::encode` issued authenticates as exactly its payload until it expires (unless the payload is empty) |
| PhpAuth.Session.constructor | server_php/middleware/auth.php:32 | there is no current user before `requireAuth` |
| PhpAuth.Session.RequireAuth | server_php/middleware/auth.php:31-35 | `$current_user` is set to the decoded claims only on success and is unchanged on a rejection |
| PhpAuth.Session.GetCurrentUser | server_php/middleware/auth.php:39-43 | the current user, when there is one, is a non-empty payload |
| JsAuth.Decide | server/middleware/auth.js:18-45 | `next()` exactly on a verified token; `JsonWebTokenError` gives 401 "Token inválido", `TokenExpiredError` 401 "Token expirado", anything else 500 |
| JsAuth.Guard | server/middleware/auth.js:6-15 | no header or no case-sensitive "Bearer " prefix gives 401 before any verify; otherwise the answer is the verify outcome of the text after the 7th character |
| JsAuth.NextOnlyWhenVerified | server/middleware/auth.js:3-46 | `next()` happens if and only if the header starts with "Bearer " and `jwt.verify` accepts the rest |
| JsAuth.Request.constructor | server/middleware/auth.js:3-6 | a request starts with its header and no `req.user` |
| JsAuth.Request.AuthMiddleware | server/middleware/auth.js:3-46 | `req.user` is assigned only when `next()` is called |
| JsAuth.AgreeOnPlainBearer | server/middleware/auth.js:8-18 | for "Bearer " and a space-free token, both back ends check the same token |
| JsAuth.LowerCaseSchemeDiverges | server/middleware/auth.js:8 | "bearer abc" yields "abc" in PHP but is refused unverified by Node |
| JsAuth.DoubleSpaceDiverges | server/middleware/auth.js:15 | after "Bearer  abc" PHP checks "abc" and Node " abc" |
| JsAuth.UnanchoredSchemeDiverges | server/middleware/auth.js:8 | "Token Bearer abc" yields "abc" in PHP but is refused unverified by Node |
| Catalog.Upsert | server/controllers/courseController.js:158-328 | SELECT then UPDATE or INSERT: only the key's row changes, and a missing row starts from the INSERT defaults |
| Catalog.ToggleTwice | server/controllers/courseController.js:158-244 | toggling a flag twice gives back the row every read sees |
| Catalog.SetPositionIdempotent | server/controllers/courseController.js:293-328 | setting the same position twice is the same as setting it once |
| Catalog.SetPositionReads | server/controllers/courseController.js:293-328 | after a position update the lesson read reports that position |
| Catalog.NodeChangesKeepStamps | server/controllers/courseController.js:247-281 | every Node change keeps `completed_at` set exactly on completed rows |
| Catalog.PhpCompletionLeavesNoStamp | server_php/controllers/CourseController.php:202-239 | PHP's completion of a lesson without a row leaves `completed_at` NULL, so the invariant above breaks |
| Catalog.ToggleReportsNegation | server/controllers/courseController.js:158-244 | the reported flag is the negation of what the read showed before, and the other flag is untouched |
| Catalog.FindCourse | server/controllers/courseController.js:39-66 | the course with the id, or None exactly when no course has it |
| Catalog.FindLesson | server/controllers/courseController.js:110-141 | the lesson with the id, or None exactly when no lesson has it |
| Catalog.LessonsOf | server/controllers/courseController.js:70-90 | `WHERE course_id = ?` keeps exactly the lessons of the course, with their multiplicities |
| Catalog.SortBy | server/controllers/courseController.js:20 | `ORDER BY ... ASC` is an ascending permutation |
| Catalog.TotalLessonsCounts | server/controllers/courseController.js:343-346 | the count is `COUNT(*)` of the rows `WHERE course_id = ?` selects |
| Catalog.CompletedLessons | server/controllers/courseController.js:348-354 | the completed count never exceeds the total |
| Catalog.Percentage | server/controllers/courseController.js:356 | the progress lies in [0, 100], is 100 exactly when all are done, and 0 exactly when none is |
| Catalog.ProgressUpdated | server/controllers/courseController.js:331-380 | an unknown lesson changes nothing; otherwise only the (user, course) row gets the recomputed progress, by UPDATE or INSERT |
| Catalog.ProgressStaysBounded | server/controllers/courseController.js:331-380 | the recompute keeps every stored progress in [0, 100] |
| Catalog.CountMovesByOne | server/controllers/courseController.js:348-354 | completing or un-completing one lesson moves the completed count by exactly one |
| Catalog.CompletionMovesCount | server/controllers/courseController.js:247-290 | Node's completion toggle moves the count up or down by one |
| Catalog.CoursesOfViews | server/controllers/courseController.js:8-22 | the course read adds columns and never drops or reorders courses |
| Catalog.LessonsOfViews | server/controllers/courseController.js:70-90 | the lesson read adds columns and never drops or reorders lessons |
| Catalog.Database.constructor | server/controllers/courseController.js:4-36 | a catalogue with no per-user rows, where the completed-at and progress invariants hold |
| Catalog.Database.UpsertLesson | server/controllers/courseController.js:158-328 | the table becomes `Upsert` of the old one, and nothing else changes |
| CourseJs.GetAllCourses | server/controllers/courseController.js:4-36 | every course once, by ascending `order_index`, each with the user's columns |
| Catalog.CourseLessons | server/controllers/courseController.js:70-90 | exactly the course's lessons, with their multiplicities, in ascending order of the given key, each with the user's columns |
| Catalog.CourseDetailById | server/controllers/courseController.js:39-107 | None exactly when no course has the id; otherwise that course with the user's columns and its lessons as above |
| Catalog.LessonViewById | server/controllers/courseController.js:110-155 | None exactly when no lesson has the id; otherwise a lesson with that id and the user's columns |
| CourseJs.GetCourseById | server/controllers/courseController.js:39-107 | 404 "Curso não encontrado" exactly when no course has the id; otherwise that course with the user's columns and exactly its lessons by ascending `order_index` |
| CourseJs.GetLessonById | server/controllers/courseController.js:110-155 | 404 "Aula não encontrada" exactly when no lesson has the id; otherwise that lesson with the user's columns |
| CourseJs.ToggleLessonFavorite | server/controllers/courseController.js:158-201 | the favourite flag is negated (inserted as true), the response is the new value, and `completed_at` stays in step |
| CourseJs.ToggleLessonLike | server/controllers/courseController.js:204-244 | as the favourite toggle, on `is_liked` |
| CourseJs.MarkLessonComplete | server/controllers/courseController.js:247-290 | completion is flipped with its timestamp set or cleared, then the course progress is recomputed and stays in [0, 100] |
| CourseJs.UpdateVideoPosition | server/controllers/courseController.js:293-328 | the position is stored with or without a previous row and echoed |
| CourseJs.UpdateCourseProgress | server/controllers/courseController.js:331-380 | `user_courses` becomes `ProgressUpdated` of the old table |
| CourseJs.QuarterSteps | server/controllers/courseController.js:331-380 | with four lessons, completing one gives 25, two gives 50, and un-completing one gives 25 again |
| CoursePhp.GetAllCourses | server_php/controllers/CourseController.php:16-42 | every course once, newest id first, each with the user's columns |
| CoursePhp.GetCourseById | server_php/controllers/CourseController.php:45-88 | 404 "Curso não encontrado" exactly when no course has the id; otherwise that course with the user's columns and exactly its lessons by ascending `position` |
| CoursePhp.GetLessonById | server_php/controllers/CourseController.php:91-119 | 404 "Aula não encontrada" exactly when no lesson has the id; otherwise that lesson with the user's columns |
| CoursePhp.CourseController.ToggleLessonFavorite | server_php/controllers/CourseController.php:122-159 | the favourite flag is negated (inserted as true) and the new value is sent |
| CoursePhp.CourseController.ToggleLessonLike | server_php/controllers/CourseController.php:162-199 | as the favourite toggle, on `is_liked` |
| CoursePhp.CourseController.MarkLessonComplete | server_php/controllers/CourseController.php:202-239 | only `is_completed` is flipped; `completed_at` is not written and the progress is not recomputed |
| CoursePhp.CourseController.UpdateVideoPosition | server_php/controllers/CourseController.php:242-283 | a missing position gives 400 "Posição é obrigatória" with no table change; otherwise it is stored and echoed |
| Router.BeforeQuery | server_php/routes/api.php:23-25 | the part before the first `?`, or the whole URI when it has none |
| Router.GetPath | server_php/routes/api.php:19-29 | the path has no `?`, no trailing `/`, and is no longer than the URI |
| Router.QueryIgnored | server_php/routes/api.php:23-25 | the query string never changes the path |
| Router.RootIsEmpty | server_php/routes/api.php:28 | "/" normalises to the empty path |
| Router.SinglePass | server_php/routes/api.php:27 | `str_replace` makes one pass: "/index/index.php.php" becomes "/index.php" |
| Router.Match | server_php/routes/api.php:84-87 | every captured parameter is a non-empty `/`-free run, and the parameters instantiate the pattern to the path |
| Router.MatchComplete | server_php/routes/api.php:84-87 | every valid instantiation of a pattern matches it |
| Router.MatchIff | server_php/routes/api.php:84-87 | a pattern matches a path exactly when some parameters instantiate it to that path, and then the captured ones do |
| Router.StaticPattern | server_php/routes/api.php:84-87 | a pattern without `:` matches only its own text and captures nothing |
| Router.TrailingParamPattern | server_php/routes/api.php:84-87 | "prefix/:id" matches exactly the prefix followed by a non-empty `/`-free segment, and captures that segment |
| Router.MatchRoute | server_php/routes/api.php:77-102 | no match for another method; on a match, the middleware (if truthy) and then the handler with the captured parameters |
| Router.FirstMatch | server_php/routes/api.php:61-75 | the first matching route in registration order; with none, 404 "Rota não encontrada" |
| Router.LaterRoutesIgnored | server_php/routes/api.php:63-67 | routes added after the first match never change the dispatch |
| Router.Router.constructor | server_php/routes/api.php:13-17 | method and normalised path come from the request, and the table starts empty |
| Router.Router.AddRoute | server_php/routes/api.php:51-59 | one route is appended, keeping registration order |
| Router.Router.Get | server_php/routes/api.php:31-34 | a GET route is appended |
| Router.Router.Post | server_php/routes/api.php:36-39 | a POST route is appended |
| Router.Router.Put | server_php/routes/api.php:41-44 | a PUT route is appended |
| Router.Router.Delete | server_php/routes/api.php:46-49 | a DELETE route is appended |
| Router.Router.Run | server_php/routes/api.php:61-75 | the loop stops at the first match, and 404 only when no route matches |
| Router.Router.RegisterApiRoutes | server_php/routes/api.php:113-179 | the twelve routes are registered in file order |
| Router.PublicRoutes | server_php/routes/api.php:113-179 | login and register are the only routes without middleware, and every other route runs `requireAuth` |
| Router.ProtectedDispatch | server_php/routes/api.php:123-179 | for any method and path, a dispatch to a protected route calls `requireAuth` before its handler, and one to login or register calls the handler alone |
| Router.CourseByIdDispatch | server_php/routes/api.php:150-153 | `GET /api/courses/<id>` is taken by route 6 and runs `requireAuth` and then `getCourseById(<id>)` |
| EnvLoader.Unquote | server_php/utils/EnvLoader.php:22-24 | a non-empty value starting with a quote loses its first and last characters whatever the last one is; other values are kept |
| EnvLoader.ParseLine | server_php/utils/EnvLoader.php:13-30 | comments store nothing; a stored name is truthy, trimmed and free of `=`; a line without `=` stores "" |
| EnvLoader.SplitAtFirstEquals | server_php/utils/EnvLoader.php:17-30 | the line splits at its first `=`: an empty name stores nothing, otherwise the trimmed name gets the trimmed, unquoted rest, later `=` included |
| EnvLoader.Store | server_php/utils/EnvLoader.php:26-30 | storing a pair adds or overwrites that one name and keeps the others |
| EnvLoader.LastWins | server_php/utils/EnvLoader.php:12-31 | for a name assigned on several lines, the last assignment decides the value |
| EnvLoader.OthersUnchanged | server_php/utils/EnvLoader.php:12-31 | a name no line assigns keeps its presence and value |
| EnvLoader.CommentIgnored | server_php/utils/EnvLoader.php:13-15 | a comment line changes nothing |
| EnvLoader.Environment.StoreLine | server_php/utils/EnvLoader.php:13-30 | one iteration of the loop stores exactly the parsed pair of its line |
| EnvLoader.Environment.Load | server_php/utils/EnvLoader.php:5-33 | a missing file returns false and sets nothing; otherwise every line is stored in order and true is returned |
| Users.FindByEmail | server/controllers/authController.js:32-35 | a row with the email, or None exactly when no row has it |
| Users.FindById | server/controllers/authController.js:161-164 | the row with the id, or None exactly when no row has it |
| Users.FindOwnId | server/controllers/authController.js:161-164 | with unique ids, the lookup of a row's id finds the row itself |
| Users.UsersTable.constructor | server/controllers/authController.js:120-125 | the table starts empty with ids from 1 |
| Users.FindOwnEmail | server/controllers/authController.js:32-44 | with unique emails, the lookup finds the row itself |
| Users.UsersTable.Insert | server/controllers/authController.js:120-125 | one row is appended under the next AUTO_INCREMENT id; ids stay unique and the new id finds the new row |
| Users.AppendFreshEmail | server/controllers/authController.js:104-123 | inserting an email no row has keeps emails unique, and the email then finds the new row |
| AuthJs.GenerateToken | server/controllers/authController.js:6-16 | the token is the signature of exactly the `id`, `email` and `name` claims of the user, valid for seven days |
| AuthJs.GeneratedTokenAuthenticates | server/controllers/authController.js:6-16 | a `generateToken` token passes `authMiddleware` with exactly the user's id, email and name |
| AuthJs.Login | server/controllers/authController.js:19-81 | 400 for a missing email or password; the same 401 "Credenciais inválidas" for an unknown email and a wrong password; success exactly when a row has the email and the password verifies, returning that row's public columns and its token |
| AuthJs.RegisterCheck | server/controllers/authController.js:89-101 | 400 for a missing field, else 400 for a password under 6 characters, else nothing |
| AuthJs.Register | server/controllers/authController.js:84-154 | a 400 or a 409 "Este email já está registado" leaves the table unchanged; otherwise exactly one row holding the password's hash is added, and 201 returns it with a token made from it |
| AuthJs.GetProfile | server/controllers/authController.js:157-185 | 404 "Utilizador não encontrado" exactly when no row has the id; otherwise that row's profile columns |
| AuthJs.RegisteredCanLogIn | server/controllers/authController.js:19-154 | after a successful register, login with the same email and password returns the same user and token |
| AuthJs.LoginOpensProfile | server/controllers/authController.js:19-185 | a login token passes the middleware with the user's claims, and `getProfile` then finds the row that logged in |
| AuthPhp.SessionClaims | server_php/controllers/AuthController.php:38-43 | the payload is exactly `id`, `email`, `name` and `exp = now + 604800` |
| AuthPhp.Login | server_php/controllers/AuthController.php:17-60 | 400 for a PHP-falsy email or password; one 401 "Credenciais inválidas" for an unknown user and a failed verify; success exactly when a row has the email and the password verifies, with a token encoding its claims |
| AuthPhp.AuthController.Register | server_php/controllers/AuthController.php:63-118 | 400 for a missing field or "Email já está em uso" with no insert; otherwise one row is inserted and 201 sends `avatar_url` null and a token with `exp = now + 604800` |
| AuthPhp.GetProfile | server_php/controllers/AuthController.php:121-139 | 404 "Utilizador não encontrado" exactly when no row has the current user's id |
| AuthPhp.RegisteredCanLogIn | server_php/controllers/AuthController.php:17-118 | after a successful register, login with the same credentials at the same time returns the same user and token |
| AuthPhp.LoginTokenLifetime | server_php/controllers/AuthController.php:38-45 | a login token authenticates as its payload up to second now + 604800 and is refused after it; the payload opens the user's profile |
| AuthPhp.ShortPasswordOnlyRefusedByNode | server_php/controllers/AuthController.php:71-84 | a password of 1 to 5 characters is refused by Node's register and accepted by PHP's |
| AuthPhp.ZeroPasswordMissingOnlyInPhp | server_php/controllers/AuthController.php:71-73 | the password "0" is missing to PHP but present to Node |

## Left out

- All `catch` blocks and 500 responses for database errors: the model's tables never fail.
- CoursePhp.CourseController.ToggleLessonFavorite, CoursePhp.CourseController.ToggleLessonLike, CoursePhp.CourseController.MarkLessonComplete: when a row exists, the new flag `!$existing[...]` is bound through `execute([...])` as a string, and PHP's `false` becomes `''` (server_php/controllers/CourseController.php:137-142, 177-182, 217-222, with native prepares at server_php/config/database.php:27-29). If the column is an integer type and MySQL runs in strict `sql_mode`, the clearing UPDATE fails, and the `catch` answers 500, so a set flag can never be cleared. Neither the column type nor the `sql_mode` is part of this model: it assumes `''` is stored as 0, and every un-toggle stores the negation and succeeds. Node's `db.query` sends `false` as a literal and is not affected.
- HMAC-SHA256, JSON encoding and decoding, bcrypt and jsonwebtoken are parameters. Only the properties named above are assumed of them. bcrypt's random salt is not modelled: the hasher is a function.
- The `JWT_SECRET` lookup and its fallback key (`JWT::init`): the key is a parameter.
- Jwt.Decode: an `exp` claim that is not an integer never counts as expired. PHP's loose `<` on strings and floats is not modelled.
- Jwt.Decode: the JSON codec parses only objects. In PHP a correctly signed payload that is a JSON scalar (such as `true`) skips the `exp` check and is returned, and `requireAuth` accepts it as truthy. Only a holder of the key can sign such a token.
- `Response::*` echoes JSON and exits. A handler's effect is modelled as the response it ends with.
- Router.Router.Run: a middleware that exits (a `requireAuth` rejection) stops the handler in PHP. The model lists the calls the router makes in order, not their effect.
- Router.MatchRoute: the `$` that closes the pattern `'#^' . $pattern . '$#'` also matches, in PCRE, before a final newline. A request URI cannot carry a raw newline, so this is not modelled.
- Router.MatchRoute: route paths are assumed to hold no regex metacharacters other than `:name`. The registered ones hold none.
- Catalog.Percentage: JavaScript's floating-point division is modelled as exact real division.
- Catalog.SortBy: SQL leaves the order of rows with equal keys open. The model keeps them in storage order (`Catalog.SortByEqualKeys`), and no other contract depends on it.
- Column defaults: the model assumes an INSERT that names no flag leaves it false, and no timestamp leaves it NULL.
- String comparison is exact. MySQL's case-insensitive collation of `email` is not modelled.
- AuthJs.Register: `password.length` counts UTF-16 code units. Here a string is a sequence of characters.
- Credential fields of a request body (`name`, `email`, `password`) are strings or absent. Numbers, booleans and arrays in those fields are not modelled.
- AuthPhp.AuthController.Register: `lastInsertId()` returns a string, so the PHP register token carries `id` as a JSON string. The model encodes it as an integer, like the login token.
- AuthJs.GetProfile: only an integer `id` claim finds a row. MySQL's coercion of a string id is not modelled.
- AuthPhp.GetProfile: only an integer `id` claim finds a row. MySQL's coercion of a string id is not modelled.
- CourseJs.UpdateVideoPosition: `position_seconds` is an integer. An absent or non-numeric value is not modelled.
- CoursePhp.CourseController.UpdateVideoPosition: `position` is an integer or absent. Any other JSON value (a string, a float, `false`) passes the `=== null` test and is stored through MySQL's conversion, and the reply echoes `(int) $position`, which can differ from what was stored. Neither is modelled: the model stores and echoes the same integer.
- Path identifiers (the `:id` capture in the PHP router, `req.params.id` in Node) are strings that MySQL converts when it compares them with an integer column. Every handler here takes an integer id; the conversion is not modelled.
- EnvLoader: the file read (`file_exists`, `file()` with its flags) is a parameter: the lines, or None for a missing file. `putenv`, `$_ENV` and `$_SERVER` receive the same pairs and are one map.
- Concurrency between requests, and the time between a handler's SELECT and its UPDATE.
- The mailer, the dashboard handlers, the database connection setup, the Express route table and the 501 stubs are not part of this model.
