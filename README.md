# movie465 command handlers in Dafny

This project models the command handlers of the three back-end services of
movie465, and the queries and token operations they rely on:

- **Users service.** Users with a role and skills. Users, roles and skills
  are created, updated and deleted. Login (`TokenHandler`) exchanges a user
  name and password for a JWT access token and a base 64 refresh token.
  Refresh (`RefreshTokenHandler`) exchanges an expired access token and the
  stored refresh token for a new pair. The token operations of
  `UsersDbHandler` are modelled too: the claims, the access and refresh
  tokens, the lookup by refresh token, and reading an expired token.
- **Movies service.** Movies are created, updated and deleted with their
  director and genres. Directors are deleted only while no movie has them.
  Genres are created, renamed and deleted.
- **Projects service.** Tags, projects and works. A project's tags are
  written through the entity's `TagIds` property, which rebuilds the
  `ProjectTags` collection. The pure `WorkQueryHandler` filters, orders and
  projects works.

Each service's database is a class: `UsersDb`, `MoviesDb` and `ProjectsDb`.
Each has one `map<int, _>` per table, a `nextId` counter for the identities
the database hands out, and a `Valid()` invariant:

- rows are keyed by their ids;
- foreign keys point at stored rows;
- names are unique in the way the handlers check them.

In the projects service the handlers do not check every foreign key
themselves; the database does when `SaveChangesAsync` runs. A project whose
`TagIds` name a tag that is not stored, a work whose `ProjectId` names a
project that is not stored, and the delete of a project that a work still
names all make the save throw. Those handlers then end in
`CommandResult.SaveFailed`, with nothing saved.

Join tables (`UserSkill`, `MovieGenre`, `ProjectTag`) are maps of
`JoinTable.Link(owner, target)` rows. Every handler is a method on its
database. Its `ensures` states the whole new state for each branch of the
source, in the source's order of checks. It also states the property the
branch is there for: the name now answers to one row only, the owner is
linked to exactly the requested targets, and no other owner's links change.
Helper lemmas carry the invariants the branches preserve.

The generic helpers are kept apart from the handlers:

- `Text`: `Trim`, ASCII `ToUpper`/`ToLower`, and `int.TryParse` for
  decimal text.
- `Base64`: `Convert.ToBase64String`, with a decoder proved to invert it.
- `Jwt`: claims and `FirstOrDefault`.
- `Linq`: `Except`.
- `DbOperations`: the generic `Find`/`Add`/`Update`/`Delete`/`DeleteById`
  of `UsersDbHandler`.

## Model

| member | source | states |
|---|---|---|
| DbOperations.Find | APP.Users/Features/UsersDbHandler.cs:28-31 | a row is found exactly when its identity is stored, and it is the stored row |
| DbOperations.Add | APP.Users/Features/UsersDbHandler.cs:43-48 | the table gains exactly the new identity, holding the entity; every other row is unchanged |
| DbOperations.Update | APP.Users/Features/UsersDbHandler.cs:50-55 | the identities are unchanged; the entity replaces its own row and no other row |
| DbOperations.Delete | APP.Users/Features/UsersDbHandler.cs:57-61 | deleting a stored row reports true and removes exactly that identity |
| DbOperations.DeleteById | APP.Users/Features/UsersDbHandler.cs:63-70 | reports true iff the id was stored; on false the table is untouched; otherwise only that row goes |
| Text.TrimStart | APP.Projects/Features/Tags/TagCreateHandler.cs:50 | never longer than its input |
| Text.TrimStartShape | APP.Projects/Features/Tags/TagCreateHandler.cs:50 | the result is a suffix of the input; everything cut off is white space; the result does not start with white space |
| Text.TrimEnd | APP.Projects/Features/Tags/TagCreateHandler.cs:50 | never longer than its input |
| Text.TrimEndShape | APP.Projects/Features/Tags/TagCreateHandler.cs:50 | the result is a prefix of the input; everything cut off is white space; the result does not end with white space |
| Text.Trim | APP.Projects/Features/Tags/TagCreateHandler.cs:50 | the result is no longer than the input and has no white space at either end |
| Text.TrimCut | APP.Projects/Features/Tags/TagCreateHandler.cs:50 | the trimmed text is a stretch of the input with nothing but white space before and after it |
| Text.TrimTrimmed | APP.Projects/Features/Tags/TagCreateHandler.cs:50 | trimming a string with no white space at its ends leaves it as it is |
| Text.TrimIdempotent | APP.Projects/Features/Tags/TagCreateHandler.cs:50 | trimming twice is the same as trimming once |
| Text.ToUpper | APP.Projects/Features/Tags/TagCreateHandler.cs:44 | upper-casing keeps the length and maps each character to its upper-case form |
| Text.ToLower | APP.Users/Features/Roles/RoleCreateHandler.cs:26 | lower-casing keeps the length and maps each character to its lower-case form |
| Text.UpperTrimCommute | APP.Projects/Features/Tags/TagCreateHandler.cs:44 | upper-casing then trimming is the same as trimming then upper-casing, so `Name.ToUpper().Trim()` compares the trimmed name the handler stores |
| Text.ParseInt32 | APP.Users/Features/Users/RefreshTokenHandler.cs:43 | parsing succeeds iff the text, without the white space around it, is an optional sign followed by digits whose value fits in 32 bits, and then gives that value |
| Text.ParseSurrounded | APP.Users/Features/Users/RefreshTokenHandler.cs:43 | a signed number with white space around it parses to its value when that fits in 32 bits, and fails otherwise |
| Text.ParseIntToString | APP.Users/Features/Users/RefreshTokenHandler.cs:43 | parsing the decimal text of a 32-bit id gives the id back |
| Base64.ValueOf | APP.Users/Features/UsersDbHandler.cs:97 | a character's value, when it has one, is a 6-bit digit that encodes to that character |
| Base64.ValueOfCharOf | APP.Users/Features/UsersDbHandler.cs:97 | every 6-bit digit's character decodes back to the digit |
| Base64.EncodeLength | APP.Users/Features/UsersDbHandler.cs:97 | n bytes encode to 4 characters per started group of 3 |
| Base64.EncodeShape | APP.Users/Features/UsersDbHandler.cs:97 | the text is alphabet characters followed by 0, 1 or 2 padding characters, as many as the last group lacks |
| Base64.DecodeEncode | APP.Users/Features/UsersDbHandler.cs:97 | decoding the encoding of any byte sequence gives it back |
| Jwt.FindFirst | APP.Users/Features/Users/RefreshTokenHandler.cs:42 | no result iff no claim has the type; otherwise the result is a claim of that type from the list |
| Linq.Except | APP.Users/Features/Users/UserCreateHandler.cs:53 | an id is kept iff it is in the first list and not in the set; the kept ids are distinct |
| Linq.ExceptOrder | APP.Users/Features/Users/UserCreateHandler.cs:53-55 | the kept ids come in the order of their first occurrence in the first list |
| Linq.ExceptEmpty | APP.Users/Features/Users/UserCreateHandler.cs:53-54 | nothing is missing iff every requested id is stored |
| JoinTable.RowsTargets | APP.Users/Features/Users/UserUpdateHandler.cs:64-87 | an owner has no rows exactly when it has no targets |
| JoinTable.WithLinksShape | APP.Users/Features/Users/UserCreateHandler.cs:70-85 | adding links keeps every old row; each new identity holds the owner and the target at that position |
| JoinTable.WithLinksTargets | APP.Users/Features/Users/UserCreateHandler.cs:70-85 | after adding links, the owner's targets are the old ones plus the requested ids; other owners' targets do not change |
| JoinTable.WithLinksWithin | APP.Movies/Features/Movies/MovieCreateHandler.cs:62-74 | links to existing targets keep every link pointing at a stored row |
| JoinTable.LinksOutside | APP.Users/Features/Users/UserCreateHandler.cs:70-85 | an owner that is not stored (the user being created) owns no rows and has no links yet |
| JoinTable.WithoutOwner | APP.Users/Features/Users/UserDeleteHandler.cs:31-35 | exactly the rows of other owners remain |
| JoinTable.WithoutOwnerTargets | APP.Projects/Features/Projects/ProjectUpdateHandler.cs:84 | after the owner's rows are removed, it has no targets and other owners keep theirs |
| JoinTable.Reconcile | APP.Users/Features/Users/UserUpdateHandler.cs:64-87 | other owners' rows and still-requested rows are kept; stale rows go; the new rows, under consecutive new keys, link the owner to the requested targets not yet linked, in the order `Except` gives them |
| JoinTable.ReconcileTargets | APP.Users/Features/Users/UserUpdateHandler.cs:64-87 | after reconciling, the owner is linked to exactly the requested ids and other owners' targets do not change |
| UsersDbHandler.GetClaims | APP.Users/Features/UsersDbHandler.cs:130-140 | exactly three claims, one of each type: the user name, the decimal text of the id, and the role's name |
| UsersDbHandler.CreateAccessToken | APP.Users/Features/UsersDbHandler.cs:74-90 | the token expires the configured minutes after issue; reading it with the same secret gives exactly the user's claims |
| UsersDbHandler.CreateRefreshToken | APP.Users/Features/UsersDbHandler.cs:92-98 | 32 random bytes become 44 characters whose only padding is the final '=', and the text decodes back to the bytes |
| UsersDbHandler.GetPrincipalFromExpiredToken | APP.Users/Features/UsersDbHandler.cs:107-128 | the claims are returned iff the signature verifies under the secret and the header says HS256 up to case; otherwise the read fails with the library's or the handler's refusal |
| UsersDbHandler.ExpiryIgnored | APP.Users/Features/UsersDbHandler.cs:115 | the token's expiry does not change the read result |
| UsersDbHandler.GetUserByRefreshToken | APP.Users/Features/UsersDbHandler.cs:100-105 | returns a stored user who holds the token unexpired, or none exactly when nobody does |
| UsersDomain.UserNamed | APP.Users/Features/Users/UserCreateHandler.cs:34-38 | finds a stored user with exactly this user name, or none exactly when no one has it |
| UsersDomain.AddUserValid | APP.Users/Features/Users/UserCreateHandler.cs:59-70 | a user with the next identity, an existing role and an untaken name keeps the users valid |
| UsersDomain.ReplaceUserValid | APP.Users/Features/Users/UserUpdateHandler.cs:56-61 | replacing a user by a record with the same id and name and an existing role keeps the users valid |
| UsersDomain.RolesNamed | APP.Users/Features/Roles/RoleCreateHandler.cs:26 | exactly the roles whose lower-cased name equals the lower-cased request name |
| UsersDomain.SkillsNamed | APP.Users/Features/Skills/SkillCreateHandler.cs:26 | exactly the skills whose lower-cased name equals the lower-cased request name |
| UsersDomain.PutRoleValid | APP.Users/Features/Roles/RoleCreateHandler.cs:26-39 | storing a role whose name no other role has up to case keeps names distinct; the role then alone answers to the name |
| UsersDomain.PutSkillValid | APP.Users/Features/Skills/SkillCreateHandler.cs:26-39 | the same for skills |
| UsersDomain.UsersDb.constructor | APP.Users/Features/UsersDbHandler.cs:21 | an empty database is valid |
| UsersDomain.UsersDb.AddUser | APP.Users/Features/UsersDbHandler.cs:43-48 | the user is stored under the next identity, owns no skill rows, and the invariant holds |
| UsersDomain.UsersDb.UpdateUser | APP.Users/Features/UsersDbHandler.cs:50-55 | the user's row is replaced and nothing else changes |
| UsersDomain.UsersDb.RemoveUser | APP.Users/Features/UsersDbHandler.cs:57-61 | a user with no skill rows is removed and nothing else changes |
| UsersDomain.UsersDb.AddRole | APP.Users/Features/UsersDbHandler.cs:43-48 | the role is stored under the next identity and alone answers to its name |
| UsersDomain.UsersDb.UpdateRole | APP.Users/Features/UsersDbHandler.cs:50-55 | the role is replaced and alone answers to its name |
| UsersDomain.UsersDb.RemoveRole | APP.Users/Features/UsersDbHandler.cs:57-61 | a role no user has is removed and nothing else changes |
| UsersDomain.UsersDb.AddSkill | APP.Users/Features/UsersDbHandler.cs:43-48 | the skill is stored under the next identity and alone answers to its name |
| UsersDomain.UsersDb.UpdateSkill | APP.Users/Features/UsersDbHandler.cs:50-55 | the skill is replaced and alone answers to its name |
| UsersDomain.UsersDb.RemoveSkill | APP.Users/Features/UsersDbHandler.cs:57-61 | a skill no row links to is removed and nothing else changes |
| UsersDomain.UsersDb.AddUserSkills | APP.Users/Features/Users/UserCreateHandler.cs:73-85 | one row per requested skill id, in order, under consecutive new identities |
| UsersDomain.UsersDb.RemoveUserSkills | APP.Users/Features/Users/UserDeleteHandler.cs:31-35 | exactly the given rows are deleted |
| TokenHandler.Failed | APP.Users/Features/Users/TokenHandler.cs:42-54 | a refusal carries the message and no token, ids or names |
| TokenHandler.WithRefreshToken | APP.Users/Features/Users/TokenHandler.cs:65-68 | the user with the new refresh token and expiry, every other field kept |
| TokenHandler.Issued | APP.Users/Features/Users/TokenHandler.cs:70-82 | a success carrying the message, the user's id, user name, full name (name, space, surname) and role name, an access token created for the user at that time, the given refresh token, and both expiries |
| TokenHandler.IssueTokens | APP.Users/Features/Users/TokenHandler.cs:61-82 | only that user's record changes, taking the new refresh token, and the response is the issued pair |
| TokenHandler.Handle | APP.Users/Features/Users/TokenHandler.cs:39-83 | an unknown name or wrong password gets the same refusal, then an inactive account its own; only an active user with the right password gets a pair, and nothing else changes |
| RefreshTokenHandler.ClaimedUserId | APP.Users/Features/Users/RefreshTokenHandler.cs:32-44 | the id is present only when the token reads under the secret and its first name-identifier claim parses as a 32-bit integer |
| RefreshTokenHandler.AccessTokenNamesUser | APP.Users/Features/Users/RefreshTokenHandler.cs:32-44 | an access token issued to a user claims that user's id, however long ago it expired |
| RefreshTokenHandler.IssuedPairAccepted | APP.Users/Features/Users/RefreshTokenHandler.cs:28-78 | a pair issued at some time is accepted at any later time before its refresh token expires |
| RefreshTokenHandler.Handle | APP.Users/Features/Users/RefreshTokenHandler.cs:28-78 | refuses an unreadable token, then a refresh token the named user does not hold unexpired; on success only that user changes, and the old refresh token no longer works |
| UserCreateHandler.Refusal | APP.Users/Features/Users/UserCreateHandler.cs:34-56 | the first failed check in source order: taken name, missing role, missing skills, whose message lists exactly the requested ids not stored; none iff all pass |
| UserCreateHandler.NewUser | APP.Users/Features/Users/UserCreateHandler.cs:59-68 | the new user is active, registered now, holds no refresh token, and has the requested user name and role |
| UserCreateHandler.Register | APP.Users/Features/Users/UserCreateHandler.cs:70-85 | the user is stored under a new identity and linked to exactly the requested skills |
| UserCreateHandler.Handle | APP.Users/Features/Users/UserCreateHandler.cs:31-88 | a refusal changes nothing; otherwise the new user is registered and its id returned |
| UserUpdateHandler.Refusal | APP.Users/Features/Users/UserUpdateHandler.cs:33-53 | the first failed check in source order: unknown user, missing role, missing skills; none iff all pass |
| UserUpdateHandler.Updated | APP.Users/Features/Users/UserUpdateHandler.cs:56-61 | the requested name, surname, activity and role; the id, user name, password and tokens are kept |
| UserUpdateHandler.Revise | APP.Users/Features/Users/UserUpdateHandler.cs:56-87 | the user is replaced and linked to exactly the requested skills; other users' skills do not change |
| UserUpdateHandler.Handle | APP.Users/Features/Users/UserUpdateHandler.cs:30-90 | a refusal changes nothing; otherwise the user is revised and other users' skills do not change |
| UserDeleteHandler.Handle | APP.Users/Features/Users/UserDeleteHandler.cs:23-41 | an unknown id changes nothing; otherwise the user and all its skill rows are gone and no other row changes |
| RoleCreateHandler.Handle | APP.Users/Features/Roles/RoleCreateHandler.cs:23-40 | a name some role has up to case is refused with no change; otherwise a new role alone answers to it |
| RoleUpdateHandler.RenameCaseOnly | APP.Users/Features/Roles/RoleUpdateHandler.cs:32-36 | renaming a role to its own name in another case meets no other role |
| RoleUpdateHandler.Handle | APP.Users/Features/Roles/RoleUpdateHandler.cs:24-44 | unknown id, then a name another role has, are refused with no change; otherwise the role is renamed and alone answers to the name |
| RoleDeleteHandler.Handle | APP.Users/Features/Roles/RoleDeleteHandler.cs:23-39 | unknown id, then a role some user has, are refused with no change; otherwise only the role goes |
| SkillCreateHandler.Handle | APP.Users/Features/Skills/SkillCreateHandler.cs:23-40 | a name some skill has up to case is refused with no change; otherwise a new skill alone answers to it |
| SkillUpdateHandler.RenameCaseOnly | APP.Users/Features/Skills/SkillUpdateHandler.cs:32-36 | renaming a skill to its own name in another case meets no other skill |
| SkillUpdateHandler.Handle | APP.Users/Features/Skills/SkillUpdateHandler.cs:24-44 | unknown id, then a name another skill has, are refused with no change; otherwise the skill is renamed and alone answers to the name |
| SkillDeleteHandler.Handle | APP.Users/Features/Skills/SkillDeleteHandler.cs:23-39 | unknown id, then a skill some user has, are refused with no change; otherwise only the skill goes |
| MoviesDomain.GenresNamed | APP.Movies/Features/Genres/GenreCreateHandler.cs:27-31 | exactly the genres whose lower-cased name equals the lower-cased request name |
| MoviesDomain.PutGenreValid | APP.Movies/Features/Genres/GenreCreateHandler.cs:27-40 | storing a genre whose name no other genre has up to case keeps names distinct; the genre then alone answers to it |
| MoviesDomain.MoviesDb.constructor | APP.Movies/Features/MoviesDbHandler.cs:14 | an empty database is valid |
| MoviesDomain.MoviesDb.AddMovie | APP.Movies/Features/Movies/MovieCreateHandler.cs:51-59 | the movie is stored under the next identity, owns no genre rows, and the invariant holds |
| MoviesDomain.MoviesDb.UpdateMovie | APP.Movies/Features/Movies/MovieUpdateHandler.cs:58-63 | the movie's row is replaced and nothing else changes |
| MoviesDomain.MoviesDb.RemoveMovie | APP.Movies/Features/Movies/MovieDeleteHandler.cs:39 | a movie with no genre rows is removed and nothing else changes |
| MoviesDomain.MoviesDb.RemoveDirector | APP.Movies/Features/Directors/DirectorDeleteHandler.cs:37 | a director no movie has is removed and nothing else changes |
| MoviesDomain.MoviesDb.AddGenre | APP.Movies/Features/Genres/GenreCreateHandler.cs:33-40 | the genre is stored under the next identity and alone answers to its name |
| MoviesDomain.MoviesDb.UpdateGenre | APP.Movies/Features/Genres/GenreUpdateHandler.cs:40-42 | the genre is replaced and alone answers to its name |
| MoviesDomain.MoviesDb.RemoveGenre | APP.Movies/Features/Genres/GenreDeleteHandler.cs:37 | a genre no row links to is removed and nothing else changes |
| MoviesDomain.MoviesDb.AddMovieGenres | APP.Movies/Features/Movies/MovieCreateHandler.cs:62-74 | one row per requested genre id, in order, under consecutive new identities |
| MoviesDomain.MoviesDb.RemoveMovieGenres | APP.Movies/Features/Movies/MovieDeleteHandler.cs:32-36 | exactly the given rows are deleted |
| MovieCreateHandler.Refusal | APP.Movies/Features/Movies/MovieCreateHandler.cs:33-48 | the first failed check in source order: missing director, missing genres, whose message lists exactly the requested ids not stored; none iff both pass |
| MovieCreateHandler.NewMovie | APP.Movies/Features/Movies/MovieCreateHandler.cs:51-59 | every field comes from the request, under the given identity |
| MovieCreateHandler.Register | APP.Movies/Features/Movies/MovieCreateHandler.cs:51-74 | the movie is stored under a new identity and linked to exactly the requested genres |
| MovieCreateHandler.Handle | APP.Movies/Features/Movies/MovieCreateHandler.cs:30-77 | a refusal changes nothing and carries id 0; otherwise the new movie is registered and its id returned |
| MovieUpdateHandler.Refusal | APP.Movies/Features/Movies/MovieUpdateHandler.cs:35-55 | the first failed check in source order: unknown movie, missing director, missing genres; none iff all pass |
| MovieUpdateHandler.Updated | APP.Movies/Features/Movies/MovieUpdateHandler.cs:58-63 | every field comes from the request; the id is kept |
| MovieUpdateHandler.Revise | APP.Movies/Features/Movies/MovieUpdateHandler.cs:58-89 | the movie is replaced and linked to exactly the requested genres; other movies' genres do not change |
| MovieUpdateHandler.Handle | APP.Movies/Features/Movies/MovieUpdateHandler.cs:32-92 | a refusal changes nothing; otherwise the movie is revised and other movies' genres do not change |
| MovieDeleteHandler.Handle | APP.Movies/Features/Movies/MovieDeleteHandler.cs:24-42 | an unknown id changes nothing; otherwise the movie and all its genre rows are gone and no other row changes |
| DirectorDeleteHandler.Handle | APP.Movies/Features/Directors/DirectorDeleteHandler.cs:24-40 | unknown id, then a director some movie has, are refused with no change; otherwise only the director goes |
| GenreCreateHandler.Handle | APP.Movies/Features/Genres/GenreCreateHandler.cs:24-41 | a name some genre has up to case is refused with no change; otherwise a new genre alone answers to it |
| GenreUpdateHandler.RenameCaseOnly | APP.Movies/Features/Genres/GenreUpdateHandler.cs:33-37 | renaming a genre to its own name in another case meets no other genre |
| GenreUpdateHandler.Handle | APP.Movies/Features/Genres/GenreUpdateHandler.cs:25-45 | unknown id, then a name another genre has, are refused with no change; otherwise the genre is renamed and alone answers to the name |
| GenreDeleteHandler.Handle | APP.Movies/Features/Genres/GenreDeleteHandler.cs:24-40 | unknown id, then a genre some movie links to, are refused with no change; otherwise only the genre goes |
| ProjectEntity.TagIdsOf | APP.Projects/Domain/Project.cs:59 | one tag id per element of `ProjectTags`, in order |
| ProjectEntity.NewProjectTags | APP.Projects/Domain/Project.cs:60 | one new element per id, in order, with the project id still 0 |
| ProjectEntity.TagIdsRoundTrip | APP.Projects/Domain/Project.cs:57-61 | reading `TagIds` after setting it gives the same list |
| ProjectEntity.Project.constructor | APP.Projects/Domain/Project.cs:48 | a new project has the given fields and an empty `ProjectTags` |
| ProjectEntity.Project.TagIds | APP.Projects/Domain/Project.cs:59 | one id per `ProjectTags` element |
| ProjectEntity.Project.SetTagIds | APP.Projects/Domain/Project.cs:60 | `ProjectTags` is rebuilt from the ids, reading `TagIds` gives them back, and the other fields are untouched |
| ProjectsDomain.NameKeyTrim | APP.Projects/Features/Tags/TagCreateHandler.cs:44 | trimming a request name first does not change how it compares |
| ProjectsDomain.TrimmedNameKey | APP.Projects/Features/Tags/TagCreateHandler.cs:44-50 | the stored trimmed name, upper-cased, is exactly the key the request name is compared on |
| ProjectsDomain.TagsNamed | APP.Projects/Features/Tags/TagCreateHandler.cs:44 | exactly the tags whose upper-cased name equals the request name upper-cased then trimmed |
| ProjectsDomain.PutTagName | APP.Projects/Features/Tags/TagUpdateHandler.cs:50-76 | storing a trimmed name no other tag has keeps names distinct; the tag then alone answers to it |
| ProjectsDomain.ProjectsNamed | APP.Projects/Features/Projects/ProjectCreateHandler.cs:77-78 | exactly the projects whose upper-cased name equals the request name upper-cased then trimmed |
| ProjectsDomain.PutProjectName | APP.Projects/Features/Projects/ProjectUpdateHandler.cs:71-97 | storing a trimmed name no other project has keeps names distinct; the project then alone answers to it |
| ProjectsDomain.WorksNamed | APP.Projects/Features/Works/WorkCreateHandler.cs:49-50 | exactly the works whose upper-cased name equals the request name upper-cased then trimmed |
| ProjectsDomain.PutWorkName | APP.Projects/Features/Works/WorkUpdateHandler.cs:45-66 | storing a trimmed name no other work has keeps names distinct; the work then alone answers to it |
| ProjectsDomain.ProjectsDb.constructor | APP.Projects/Domain/ProjectsDb.cs:14-31 | an empty database is valid, its foreign keys (`ProjectTag` to project and tag, work to project) included |
| ProjectsDomain.ProjectsDb.AddTag | APP.Projects/Features/Tags/TagCreateHandler.cs:59-66 | the tag is stored under the next identity and alone answers to its name |
| ProjectsDomain.ProjectsDb.UpdateTag | APP.Projects/Features/Tags/TagUpdateHandler.cs:63-76 | the tag is replaced and alone answers to its name |
| ProjectsDomain.ProjectsDb.AddWork | APP.Projects/Features/Works/WorkCreateHandler.cs:63-66 | a work whose project id is unset or stored is stored under the next identity and alone answers to its name |
| ProjectsDomain.ProjectsDb.UpdateWork | APP.Projects/Features/Works/WorkUpdateHandler.cs:63-66 | a work whose project id is unset or stored replaces the old one and alone answers to its name |
| ProjectsDomain.ProjectsDb.AddProjectRow | APP.Projects/Features/Projects/ProjectCreateHandler.cs:91-94 | the project row is stored under the next identity, owns no tag rows, and alone answers to its name |
| ProjectsDomain.ProjectsDb.UpdateProjectRow | APP.Projects/Features/Projects/ProjectUpdateHandler.cs:94-97 | the project row is replaced and alone answers to its name |
| ProjectsDomain.ProjectsDb.AddProjectTags | APP.Projects/Features/Projects/ProjectCreateHandler.cs:91-94 | one row per stored tag id, in order, under consecutive new identities, keeping both foreign keys |
| ProjectsDomain.ProjectsDb.RemoveProjectTags | APP.Projects/Features/Projects/ProjectUpdateHandler.cs:84 | exactly the given rows are deleted |
| ProjectsDomain.ProjectsDb.RemoveProject | APP.Projects/Features/Projects/ProjectDeleteHandler.cs:54-57 | a project that owns no tag rows and that no work names is removed, and nothing else changes |
| TagCreateHandler.Handle | APP.Projects/Features/Tags/TagCreateHandler.cs:36-66 | a name some tag has is refused with no change; otherwise the trimmed name is stored under a new identity and alone answers to the name |
| TagUpdateHandler.Handle | APP.Projects/Features/Tags/TagUpdateHandler.cs:47-76 | a name another tag has, then an unknown id, are refused with no change; otherwise the tag takes the trimmed name and alone answers to it |
| ProjectCreateHandler.NewEntity | APP.Projects/Features/Projects/ProjectCreateHandler.cs:81-88 | the saved row has the trimmed fields, and the entity's `TagIds` are the requested ids |
| ProjectCreateHandler.Store | APP.Projects/Features/Projects/ProjectCreateHandler.cs:91-94 | given stored tag ids, the row is stored under the next identity and alone answers to its name, and the project's tag rows are exactly its tag ids under consecutive new identities |
| ProjectCreateHandler.Register | APP.Projects/Features/Projects/ProjectCreateHandler.cs:81-94 | with every requested tag stored, the project is stored under a new identity and linked to exactly the requested tag ids |
| ProjectCreateHandler.Handle | APP.Projects/Features/Projects/ProjectCreateHandler.cs:74-94 | a name some project has is refused with no change; then a tag id naming no stored tag makes the save fail with no change; otherwise the project is registered and alone answers to the name |
| ProjectUpdateHandler.Load | APP.Projects/Features/Projects/ProjectUpdateHandler.cs:75-81 | the loaded entity is a new object holding the stored row |
| ProjectUpdateHandler.Edit | APP.Projects/Features/Projects/ProjectUpdateHandler.cs:87-91 | the entity takes the trimmed request fields and the requested `TagIds` |
| ProjectUpdateHandler.Revise | APP.Projects/Features/Projects/ProjectUpdateHandler.cs:84-97 | with every requested tag stored, the old tag rows are replaced, so the project is linked to exactly the requested ids; other projects' tags do not change |
| ProjectUpdateHandler.Handle | APP.Projects/Features/Projects/ProjectUpdateHandler.cs:68-97 | a name another project has, then an unknown id, are refused with no change; then a tag id naming no stored tag makes the save fail with no change; otherwise the project is revised and alone answers to the name |
| ProjectDeleteHandler.Handle | APP.Projects/Features/Projects/ProjectDeleteHandler.cs:39-57 | an unknown id is refused with no change; then a project some work names makes the save fail with no change; otherwise the project and all its tag rows are gone |
| WorkCreateHandler.Handle | APP.Projects/Features/Works/WorkCreateHandler.cs:42-66 | a due date before the start date, then a name some work has, are refused with no change; then a project id naming no stored project makes the save fail with no change; otherwise the work is stored under a new identity and alone answers to the name |
| WorkUpdateHandler.Handle | APP.Projects/Features/Works/WorkUpdateHandler.cs:38-66 | a bad date order, then a name another work has, then an unknown id, are refused with no change; then a project id naming no stored project makes the save fail with no change; otherwise the work is replaced and alone answers to the name |
| WorkQueryHandler.OrdinalLeqTotal | APP.Projects/Features/Works/WorkQueryHandler.cs:178 | any two names are comparable in ordinal order |
| WorkQueryHandler.OrdinalLeqTrans | APP.Projects/Features/Works/WorkQueryHandler.cs:178 | ordinal name order is transitive |
| WorkQueryHandler.OrdinalLeqAntisymmetric | APP.Projects/Features/Works/WorkQueryHandler.cs:178 | names that each come first are equal |
| WorkQueryHandler.BeforeTotal | APP.Projects/Features/Works/WorkQueryHandler.cs:175-178 | any two works are ordered by due date (latest first), then start date (latest first), then name |
| WorkQueryHandler.BeforeTrans | APP.Projects/Features/Works/WorkQueryHandler.cs:175-178 | that order is transitive |
| WorkQueryHandler.BeforeAntisymmetric | APP.Projects/Features/Works/WorkQueryHandler.cs:175-178 | works that each come first have the same key |
| WorkQueryHandler.SortSorted | APP.Projects/Features/Works/WorkQueryHandler.cs:175-178 | the sorted works are in that order |
| WorkQueryHandler.SortPermutation | APP.Projects/Features/Works/WorkQueryHandler.cs:175-178 | sorting is a permutation of the works |
| WorkQueryHandler.MatchesClauses | APP.Projects/Features/Works/WorkQueryHandler.cs:180-191 | a work passes every filter built from the request iff it matches: name equal when given and not blank, project equal, each date within its inclusive bounds |
| WorkQueryHandler.UnfilteredClauses | APP.Projects/Features/Works/WorkQueryHandler.cs:180-191 | no filter is built iff the request sets no usable criterion |
| WorkQueryHandler.WhereCount | APP.Projects/Features/Works/WorkQueryHandler.cs:180-191 | a filter keeps every copy of a work that passes it and none of the others |
| WorkQueryHandler.WhereSorted | APP.Projects/Features/Works/WorkQueryHandler.cs:180-191 | filtering keeps the order |
| WorkQueryHandler.WhereAllCount | APP.Projects/Features/Works/WorkQueryHandler.cs:180-191 | the filters together keep exactly the copies of works that pass all of them |
| WorkQueryHandler.WhereAllSorted | APP.Projects/Features/Works/WorkQueryHandler.cs:180-191 | the filters together keep the order |
| WorkQueryHandler.Respond | APP.Projects/Features/Works/WorkQueryHandler.cs:192-213 | the response copies the work's fields; the project and its name are present iff the work names a stored project |
| WorkQueryHandler.SelectedSpec | APP.Projects/Features/Works/WorkQueryHandler.cs:175-191 | the selected works are ordered and hold each matching work as often as the table does, and no other |
| WorkQueryHandler.UnfilteredAll | APP.Projects/Features/Works/WorkQueryHandler.cs:175-191 | with no criterion, every work is returned, sorted |
| WorkQueryHandler.Handle | APP.Projects/Features/Works/WorkQueryHandler.cs:175-213 | one response per selected work |
| WorkQueryHandler.HandleOrdered | APP.Projects/Features/Works/WorkQueryHandler.cs:175-213 | the responses come in the query's order |
| WorkQueryHandler.HandleMembers | APP.Projects/Features/Works/WorkQueryHandler.cs:175-213 | a response is returned iff it is the projection of a work that matches the request |

## Left out

- JWT serialisation, claims identities and HMAC-SHA256 are abstract. A token is a record of claims, expiry, header algorithm and signing key. Its signature verifies exactly when it was signed with the reader's secret.
- `RandomNumberGenerator` is not modelled: the 32 random bytes of a refresh token are a parameter of the handlers. `DateTime.UtcNow` is also a parameter, `now`, in whole seconds; minute and day lifetimes are multiplied out.
- `async`/`await`, cancellation tokens and concurrent requests are not modelled: each handler runs to completion on its own database. A save is all or nothing.
- Entity Framework collations and the database's own comparisons are not modelled. `ToUpper`/`ToLower` map ASCII letters only. The work query's name order is ordinal character order.
- One `nextId` counter per database gives identities to every table. The source's tables each have their own identity sequence, so the ids the model hands out differ; only their freshness is modelled.
- `TotalRevenue` (`decimal`) and `Version` (`double`) are `real` values that the handlers only copy. No arithmetic or rounding is modelled.
- Culture-dependent display strings (the formatted dates of the work query and the formatted version) are not modelled.
- WorkQueryHandler.Respond: the nested project response carries the project's row and its name; the nested project's `TagIds` and works are not modelled.
- WorkQueryHandler.Handle: the source leaves the order of works with equal keys to the database. The model fixes one stable order, so the contracts prove only the key order and the contents, not positions among equal keys.
- The works table is given to the query as a sequence in storage order.
- The other query handlers, the controllers, data-annotation validation, the director create/update handlers and the tag and work delete handlers are not part of this model.
- A failed save is the `SaveFailed` outcome. The `DbUpdateException` itself, and the controller's error answer for it, are not modelled.
- Entity Framework's fix-up of `ProjectTag.ProjectId` on save is represented by storing the rows under the saved project's id. The tracked entity's navigation state after saving is not modelled.
- Int32 overflow of identities is not modelled. Only the parsing of a user id from a claim is bounded to 32 bits.
- UsersDbHandler.GetUserByRefreshToken: `FirstOrDefaultAsync` picks the first matching user in database order; the model promises some matching user.
- RefreshTokenHandler.Handle: success is promised only when exactly one user holds the refresh token unexpired. When several hold it, the lookup may return another user and the source refuses; the model allows either outcome.
- UsersDbHandler.CreateAccessToken: the configured lifetime `TokenExpirationInMinutes` is a `double` in the source; the model takes whole minutes (an `int`), so a fractional lifetime is not modelled. The same holds for the access-token expiry that TokenHandler.Handle reports.
- ProjectCreateHandler.Handle: the request's `TagIds` is always a list in the model. A null list, for which the entity's `TagIds` setter throws and the request fails with an exception, is not modelled.
- ProjectUpdateHandler.Handle: as for creation, a null `TagIds` list, for which the setter throws, is not modelled.
- Work start and due dates are whole seconds (`int`), as `now` is. `DateTime` ticks finer than a second are not modelled, so a due date less than a second before the start date is not told apart from an equal one.
