# Vehicle maintenance tracker: a Dafny model of its core

This project models the request-handling core of CMTS. CMTS is an ASP.NET service where users
register vehicles, record odometer readings and book maintenance services from a catalog.
Each service in the catalog is due within an inclusive odometer range. Administrators manage
the catalog and the accounts, and move bookings through their statuses.

The database is an immutable `Store` (module `Domain`). It holds one finite map per table,
keyed by primary key, and one identity counter per table. Every endpoint is a pure function
from a store, the caller and the request body to `Result<(Store, output), Error>`. A rejection
carries no store, so every rejection leaves the database as it was. The listings that the
source orders are methods. They build a sequence from the set of matching ids and sort it
newest first.

The store invariant `Wf` is the schema's own. It covers:

- identity keys below their counters;
- every non-null foreign key pointing at an existing row;
- the unique index on a request's odometer reading.

Most writes require `Wf` and re-establish it. Four writes only promise to keep it
(`Wf(s) ==> Wf(result)`), because they cannot break it whatever the store: the three
single-field request edits in `MaintenanceRequests` and `Users.Login`. `Coherent` says that a request's reading
belongs to the request's own vehicle. The schema does not enforce it, but every endpoint
keeps it.

The caller is `Anonymous` or `Authenticated(userId, role)`. `userId` is `None` when the
token's user-id claim is missing or not an integer.

- `[Authorize]` turns away an anonymous caller (`Access.AuthGate`).
- `[Authorize(Roles = "Admin")]` also refuses a non-admin (`Access.AdminGate`).

The password hasher is a parameter: `Crypto` holds a hash function and a verify predicate.
`Sound(crypto)` says that every password verifies against its own hash.

Modules:

- `Wrappers`: `Option` and `Result`.
- `Domain`: the entities, the store and its invariants.
- `Access`: the gates.
- `Eligibility`: the matcher that decides which services a reading makes due.
- `Ordering`: newest-first ordering of a set of ids by date.
- `MaintenanceRequests`, `OdometerReadings`, `Vehicles`, `Catalog`, `Admin`: the five controllers.
- `Users`: the account service.
- `Validation`: the request bodies' data annotations.
- `Collation`: string equality as the database's `=` decides it.
- `Schema`: the delete rules of the initial migration.

## Model

| member | source | states |
|---|---|---|
| Access.CallerId | VehicleMaintenanceTracker/Controllers/MaintenanceRequestController.cs:220-227 | Yields a user id exactly when the caller is authenticated and the token carries an integer user id. Otherwise the answer is Unauthorized. |
| Access.AuthGate | VehicleMaintenanceTracker/Controllers/MaintenanceServiceController.cs:13 | Lets the call through exactly for an authenticated caller, whatever its claims, and turns an anonymous one away with Unauthorized. |
| Access.AdminGate | VehicleMaintenanceTracker/Controllers/AdminController.cs:14 | Lets the call through exactly for an authenticated admin. Anonymous gets Unauthorized and any other role gets Forbidden. |
| Access.OwnedVehicle | VehicleMaintenanceTracker/Controllers/MaintenanceRequestController.cs:41-47 | Finds the vehicle exactly when it exists and the caller owns it. A missing vehicle and someone else's vehicle give the same error. |
| Eligibility.RequiredServices | VehicleMaintenanceTracker/Controllers/OdometerReadingController.cs:101-106 | The due services are exactly the catalog entries with min ≤ reading ≤ max, unchanged from the catalog. |
| Eligibility.BoundsInclusive | VehicleMaintenanceTracker/Controllers/OdometerReadingController.cs:104 | Both bounds of a range make the service due. One step outside either bound does not. |
| Eligibility.InvertedRangeNeverDue | VehicleMaintenanceTracker/Controllers/OdometerReadingController.cs:104 | A service whose minimum exceeds its maximum is due at no reading. |
| Eligibility.RequiredServicesMonotone | VehicleMaintenanceTracker/Controllers/OdometerReadingController.cs:101-106 | Adding entries to the catalog never removes a due service. |
| Ordering.Insert | VehicleMaintenanceTracker/Controllers/MaintenanceRequestController.cs:142 | Inserting into a newest-first sequence keeps it newest first, and the result is a permutation of the input plus the new id. |
| Ordering.NewestFirst | VehicleMaintenanceTracker/Controllers/OdometerReadingController.cs:87 | The output holds every id of the map exactly once (a multiset permutation of its keys), ordered by non-increasing date. |
| MaintenanceRequests.BookService | VehicleMaintenanceTracker/Controllers/MaintenanceRequestController.cs:28-96 | Checks run in this order, each with its own error: non-positive ids or reading, missing identity, vehicle not owned, unknown service, reading outside the inclusive range. On success exactly three rows are added: the reading, a Pending request with no completion date pointing at that reading, and the line item. Nothing else changes, and `Wf` and `Coherent` are kept. |
| MaintenanceRequests.BookingAgreesWithMatcher | VehicleMaintenanceTracker/Controllers/MaintenanceRequestController.cs:49-60 | Once the input and the vehicle have passed, a booking succeeds exactly when the matcher lists the service for the reading. |
| MaintenanceRequests.BookingCannotReachForeignVehicle | VehicleMaintenanceTracker/Controllers/MaintenanceRequestController.cs:41-47 | A vehicle that is missing or not the caller's always gives the same not-found error, and nothing is written. |
| MaintenanceRequests.CompletionShown | VehicleMaintenanceTracker/Controllers/MaintenanceRequestController.cs:118-120 | The completion date is shown exactly when it is set, and the placeholder text is shown otherwise. |
| MaintenanceRequests.NotesShown | VehicleMaintenanceTracker/Controllers/MaintenanceRequestController.cs:121-123 | The notes are shown exactly when they are non-null and non-empty, and the placeholder text is shown otherwise. |
| MaintenanceRequests.GetUserMaintenanceRequests | VehicleMaintenanceTracker/Controllers/MaintenanceRequestController.cs:99-131 | Lists exactly the requests on vehicles the caller owns, each summarised with its placeholders and service names. An anonymous caller or one without an id gets Unauthorized. |
| MaintenanceRequests.OwnerListingsDisjoint | VehicleMaintenanceTracker/Controllers/MaintenanceRequestController.cs:111 | Two different users' listings share no request. |
| MaintenanceRequests.EveryRequestListedForItsOwner | VehicleMaintenanceTracker/Controllers/MaintenanceRequestController.cs:108-111 | In a consistent store, every request appears in its vehicle owner's listing. |
| MaintenanceRequests.BookingListedForOwner | VehicleMaintenanceTracker/Controllers/MaintenanceRequestController.cs:62-131 | A fresh booking appears in the owner's listing as Pending, with both placeholders and exactly the booked service. |
| MaintenanceRequests.GetAllMaintenanceRequests | VehicleMaintenanceTracker/Controllers/MaintenanceRequestController.cs:135-163 | Admin only. Every request appears exactly once, ordered by non-increasing request date, each row joined with its vehicle, reading and services. |
| MaintenanceRequests.UpdateMaintenanceStatus | VehicleMaintenanceTracker/Controllers/MaintenanceRequestController.cs:169-185 | An unknown id gives RequestNotFound, and a null status is refused by the NOT NULL column. Otherwise only the status changes, plus the completion date when the new status is "Completed". The notes and the vehicle are untouched. |
| MaintenanceRequests.UpdateAdminNote | VehicleMaintenanceTracker/Controllers/MaintenanceRequestController.cs:189-200 | A null, empty or blank note is refused before the lookup, because the body's `string AdminNotes` (MaintenanceRequestController.cs:235-238) is non-nullable. An unknown id then gives RequestNotFound. Otherwise only that request's notes change. |
| MaintenanceRequests.UpdateCompletionDate | VehicleMaintenanceTracker/Controllers/MaintenanceRequestController.cs:204-215 | An unknown id gives RequestNotFound. Otherwise only that request's completion date changes. |
| MaintenanceRequests.UpdateAdminNoteIdempotent | VehicleMaintenanceTracker/Controllers/MaintenanceRequestController.cs:197 | Repeating a note edit changes nothing further. |
| MaintenanceRequests.UpdateCompletionDateIdempotent | VehicleMaintenanceTracker/Controllers/MaintenanceRequestController.cs:212 | Repeating a completion-date edit changes nothing further. |
| MaintenanceRequests.UpdateMaintenanceStatusIdempotent | VehicleMaintenanceTracker/Controllers/MaintenanceRequestController.cs:177-181 | A repeated status update leaves the state that the later call alone would leave. |
| OdometerReadings.Offers | VehicleMaintenanceTracker/Controllers/OdometerReadingController.cs:56-65 | The offers are exactly the due services, each with its catalog name and cost. |
| OdometerReadings.AddOdometerReading | VehicleMaintenanceTracker/Controllers/OdometerReadingController.cs:28-66 | Fails exactly when the caller has no id or does not own the vehicle. On success exactly one reading with the given value is added, with no positivity check. The answer holds exactly the services due at that value, each with its catalog name and cost. |
| OdometerReadings.UncoveredReadingStillRecorded | VehicleMaintenanceTracker/Controllers/OdometerReadingController.cs:49-65 | A reading that no range covers is still stored, and the answer is an empty offer list, not an error. |
| OdometerReadings.NonPositiveReadingAcceptedHereOnly | VehicleMaintenanceTracker/Controllers/OdometerReadingController.cs:30-33 | For the same caller and vehicle, a non-positive value is recorded here but refused by the booking endpoint. |
| OdometerReadings.GetUserOdometerReadings | VehicleMaintenanceTracker/Controllers/OdometerReadingController.cs:69-98 | Each reading of the caller's vehicles appears exactly once, restricted to one vehicle when one is given, ordered by non-increasing reading date. |
| OdometerReadings.RecordedReadingInHistory | VehicleMaintenanceTracker/Controllers/OdometerReadingController.cs:49-87 | A recorded reading appears in its owner's history, both filtered and unfiltered. |
| OdometerReadings.HistoriesDisjoint | VehicleMaintenanceTracker/Controllers/OdometerReadingController.cs:79 | Two different users' histories share no reading. |
| OdometerReadings.FilteredHistoryIsRestriction | VehicleMaintenanceTracker/Controllers/OdometerReadingController.cs:81-84 | The filtered history is exactly the unfiltered one restricted to that vehicle. |
| Vehicles.AddVehicle | VehicleMaintenanceTracker/Controllers/VehicleController.cs:29-65 | A missing user id throws, id 0 gives Unauthorized, and a non-user owner or a null type or plate is refused by the database. Otherwise exactly one vehicle is added, owned by the caller, with status "Active". |
| Vehicles.GetUserVehicles | VehicleMaintenanceTracker/Controllers/VehicleController.cs:69-89 | Lists exactly the caller's vehicles. |
| Vehicles.AddedVehicleListed | VehicleMaintenanceTracker/Controllers/VehicleController.cs:42-89 | A new vehicle appears in its owner's list with status "Active". |
| Vehicles.VehicleListsDisjoint | VehicleMaintenanceTracker/Controllers/VehicleController.cs:76 | Two different users' lists share no vehicle. |
| Vehicles.GetAllVehiclesForAdmin | VehicleMaintenanceTracker/Controllers/VehicleController.cs:110-127 | Admin only. Lists each vehicle with its owner's username, and in a consistent store that is every vehicle. |
| Vehicles.AdminListIsUnionOfUserLists | VehicleMaintenanceTracker/Controllers/VehicleController.cs:69-127 | A vehicle is in the admin list exactly when it is in some user's own list. |
| Vehicles.UpdateVehicleStatus | VehicleMaintenanceTracker/Controllers/VehicleController.cs:131-158 | A null or empty status gives InvalidInput and a missing vehicle gives VehicleNotFound. Otherwise only the status changes. No role or owner check is made. |
| Vehicles.AnyUserSetsAnyVehicleStatus | VehicleMaintenanceTracker/Controllers/VehicleController.cs:129-144 | A non-admin can set the status of another user's vehicle. |
| Vehicles.UpdateVehicle | VehicleMaintenanceTracker/Controllers/VehicleController.cs:161-199 | A missing or foreign vehicle gives the same error. Otherwise type, plate, registration date and year are overwritten, and the status and owner stay. |
| Vehicles.UpdateVehicleIdempotent | VehicleMaintenanceTracker/Controllers/VehicleController.cs:180-185 | Repeating an edit changes nothing further. |
| Catalog.AddService | VehicleMaintenanceTracker/Controllers/MaintenanceServiceController.cs:25-53 | Admin only. Adds exactly one entry holding name, cost, min and max as given, with no check that min ≤ max. A null name is refused by the NOT NULL column. |
| Catalog.GetAllServices | VehicleMaintenanceTracker/Controllers/MaintenanceServiceController.cs:56-70 | Lists every catalog entry with its range. |
| Catalog.GetServiceById | VehicleMaintenanceTracker/Controllers/MaintenanceServiceController.cs:73-91 | Returns the entry with that id, or ServiceNotFound. |
| Catalog.AddThenRead | VehicleMaintenanceTracker/Controllers/MaintenanceServiceController.cs:32-91 | An added entry reads back with exactly the body's fields. |
| Catalog.AddedServiceDueExactlyInRange | VehicleMaintenanceTracker/Controllers/MaintenanceServiceController.cs:32-41 | A new entry is due exactly within its range as given, so an inverted range is never due. Existing entries keep their due status. |
| Catalog.UpdateService | VehicleMaintenanceTracker/Controllers/MaintenanceServiceController.cs:95-108 | An unknown id gives ServiceNotFound. Otherwise all four fields are overwritten and nothing else changes. |
| Catalog.UpdateThenRead | VehicleMaintenanceTracker/Controllers/MaintenanceServiceController.cs:97-104 | An update reads back as the body, and repeating it changes nothing. |
| Catalog.DeleteService | VehicleMaintenanceTracker/Controllers/MaintenanceServiceController.cs:112-121 | An unknown id gives ServiceNotFound, and a line item still naming the service makes the delete fail. Otherwise exactly that entry is removed. The admin controller's delete (AdminController.cs:256-276) is the same. |
| Catalog.DeleteThenRead | VehicleMaintenanceTracker/Controllers/MaintenanceServiceController.cs:114-119 | A deleted entry cannot be read and is never due. |
| Catalog.BookedServiceCannotBeDeleted | VehicleMaintenanceTracker/Migrations/20250307235255_InitialMigration.cs:142-147 | A service named by a line item cannot be deleted. |
| Users.Register | VehicleMaintenanceTracker/Services/UserService.cs:19-50 | An email the database matches to a user's gives EmailTaken, and a null password makes the hasher throw. Registration succeeds exactly when all five fields are present and the email is free. It then adds exactly one user with the hashed password and role "User", and the answer echoes that user. |
| Users.Login | VehicleMaintenanceTracker/Services/UserService.cs:52-75 | The email lookup uses the database's `=`, which ignores letter case and trailing spaces. An unknown email and a wrong password give the same error, and two matching users make the lookup throw. Otherwise only that user's last-login time changes. |
| Users.RegisterThenLogin | VehicleMaintenanceTracker/Services/UserService.cs:19-75 | With a sound hasher, a fresh registration logs in at once with the same email and password, as the same user. |
| Users.CaseVariantEmailTaken | VehicleMaintenanceTracker/Services/UserService.cs:21-24 | An email that differs from a user's only in letter case matches that user, so registering it gives EmailTaken. |
| Users.PaddedEmailTaken | VehicleMaintenanceTracker/Services/UserService.cs:21-24 | A user's email followed by spaces matches that user, so registering it gives EmailTaken. |
| Users.GetUserById | VehicleMaintenanceTracker/Services/UserService.cs:77-87 | Fails exactly for a missing id. Otherwise returns that user's public fields. |
| Users.GetAllUsers | VehicleMaintenanceTracker/Services/UserService.cs:89-93 | Lists every user, each as the single-user read shows it. |
| Users.RegisterThenGetUser | VehicleMaintenanceTracker/Services/UserService.cs:26-35 | A registered user reads back with the registered fields and role "User". |
| Users.UpdateProfile | VehicleMaintenanceTracker/Services/UserService.cs:95-116 | Changes only the username, phone and address fields that are given non-empty. Email, role, hash and timestamps stay. |
| Users.UpdateProfileIdempotent | VehicleMaintenanceTracker/Services/UserService.cs:104-111 | Applying the same profile update twice equals applying it once. |
| Users.ValidatedProfileUpdateOverwritesAll | VehicleMaintenanceTracker/Services/UserService.cs:104-111 | A profile body that passes its checks has all three fields non-blank, so the update overwrites all three. |
| Users.ChangePassword | VehicleMaintenanceTracker/Services/UserService.cs:118-136 | A missing user gives UserNotFound, a null current password makes the verifier throw, and a wrong one gives IncorrectCurrentPassword. When the current password verifies, the change succeeds exactly when the new password is non-null. Only the hash changes, to the hash of the new password. |
| Users.ChangedPasswordVerifies | VehicleMaintenanceTracker/Services/UserService.cs:127-132 | With a sound hasher, the new password verifies against the stored hash. |
| Users.ChangeUserRole | VehicleMaintenanceTracker/Services/UserService.cs:138-156 | A missing user is reported first. Any role other than "Admin" or "User" is refused with no change. Otherwise only the role changes. |
| Admin.GetUserById | VehicleMaintenanceTracker/Controllers/AdminController.cs:40-52 | Behind the admin gate, it is exactly the account service's read: UserNotFound for a missing id, otherwise that user's public fields. |
| Admin.GetAllUsers | VehicleMaintenanceTracker/Controllers/AdminController.cs:26-38 | Behind the admin gate, lists every user with their public fields. |
| Admin.ChangeUserRole | VehicleMaintenanceTracker/Controllers/AdminController.cs:54-66 | The body's role must be present, non-blank and at most 10 code units long, or the answer is InvalidInput. The change then succeeds exactly for an existing user and the role "Admin" or "User", and only that role changes. |
| Admin.CreateAdmin | VehicleMaintenanceTracker/Controllers/AdminController.cs:69-93 | After the admin gate, the body must pass the register checks: lengths in UTF-16 code units, and phone and address required as non-nullable strings. It succeeds exactly then and adds one user with role "Admin". No duplicate-email check is made. |
| Admin.DuplicateAdminEmailBlocksLogin | VehicleMaintenanceTracker/Controllers/AdminController.cs:73-85 | Creating an admin under an email the database matches to an existing user's succeeds, whether it is identical or differs in case or trailing spaces. Login with that email then always fails, because the lookup finds two users. |
| Admin.GetDashboardSummary | VehicleMaintenanceTracker/Controllers/AdminController.cs:96-116 | Gives the number of users, the number of vehicles, and the number of requests whose status the database's `=` matches to "Pending", so "pending" counts too. The pending count never exceeds the number of requests. |
| Admin.BookingRaisesPendingCount | VehicleMaintenanceTracker/Controllers/AdminController.cs:102-103 | A booking adds exactly its own request to the pending ones, so the count rises by one. |
| Admin.GetAllMaintenanceRequests | VehicleMaintenanceTracker/Controllers/AdminController.cs:118-159 | Lists every request joined with its vehicle, owner, reading and line items, and in a consistent store that is every request. |
| Admin.RowServicesAreLineItems | VehicleMaintenanceTracker/Controllers/AdminController.cs:146-150 | Each of a request's line items appears in its row with that service's name. |
| Admin.UpdateMaintenanceStatus | VehicleMaintenanceTracker/Controllers/AdminController.cs:162-195 | Both body fields are non-nullable strings (AdminController.cs:279-283), so a null, empty or blank status or note is refused before the lookup. An unknown id then gives RequestNotFound. Otherwise status and notes are overwritten. On "Completed" the completion date is set and the vehicle's status becomes "Normal". Any other status changes neither. |
| Admin.UpdateMaintenanceStatusIdempotent | VehicleMaintenanceTracker/Controllers/AdminController.cs:173-187 | Repeating the update with the same body gives the state that a single call at the later time gives. |
| Admin.CompletingLowersPendingCount | VehicleMaintenanceTracker/Controllers/AdminController.cs:173-185 | Completing a request the database counts as pending removes exactly it from the pending ones. |
| Admin.StatusEndpointsDiffer | VehicleMaintenanceTracker/Controllers/AdminController.cs:173-185 | On "Completed", the admin endpoint frees the vehicle and overwrites the notes. The other status endpoint touches neither. |
| Admin.AddService | VehicleMaintenanceTracker/Controllers/AdminController.cs:204-226 | The non-nullable `ServiceName` (AdminController.cs:285-291) makes a null, empty or blank name InvalidInput. Any other body adds exactly the catalog entry the service controller would add. |
| Admin.UpdateService | VehicleMaintenanceTracker/Controllers/AdminController.cs:228-253 | A blank name gives InvalidInput before the lookup. An unknown id then gives ServiceNotFound. Otherwise the entry is overwritten with the body, as the service controller would do it. |
| Admin.CatalogWritesDifferOnlyOnBlankNames | VehicleMaintenanceTracker/Controllers/AdminController.cs:204-253 | The two controllers' catalog writes agree on every body with a non-blank name. A present but blank name is stored by the service controller and refused by the admin one. |
| Schema.DeleteVehicles | VehicleMaintenanceTracker/Migrations/20250307235255_InitialMigration.cs:86-121 | The vehicles go, with their readings, their requests and those requests' line items, and every other row stays. The delete is refused exactly when a surviving request names a removed reading. |
| Schema.DeleteVehicle | VehicleMaintenanceTracker/Migrations/20250307235255_InitialMigration.cs:86-91 | After deleting a vehicle, no reading or request of it remains. |
| Schema.DeleteUser | VehicleMaintenanceTracker/Migrations/20250307235255_InitialMigration.cs:65-70 | The user goes with all of their vehicles, and the vehicles' rows cascade as above. |
| Schema.CoherentCascadeNeverBlocked | VehicleMaintenanceTracker/Migrations/20250307235255_InitialMigration.cs:110-121 | When every request's reading belongs to its own vehicle, no vehicle or user delete is refused. |
| Schema.DeleteReading | VehicleMaintenanceTracker/Migrations/20250307235255_InitialMigration.cs:110-115 | A reading that a request names cannot be deleted. Otherwise only that reading goes. |
| Schema.DeleteRequest | VehicleMaintenanceTracker/Migrations/20250307235255_InitialMigration.cs:136-141 | A request goes together with exactly its line items. |
| Schema.DeletedRequestFreesReading | VehicleMaintenanceTracker/Migrations/20250307235255_InitialMigration.cs:150-154 | After its request is deleted, a reading can be deleted, because no other request names it. |
| Validation.RequiredRefusesBlank | VehicleMaintenanceTracker/DTos/RegisterRequest.cs:7-9 | A required value is present and non-empty. A value made only of white space, including the empty one, is refused. |
| Validation.ValidRegisterBounds | VehicleMaintenanceTracker/DTos/RegisterRequest.cs:5-25 | In a valid register body every field is present and non-empty. Lengths are counted in UTF-16 code units: username ≤ 50, email ≤ 100, phone ≤ 20, address ≤ 200, and password ≥ 6, which is at least 3 characters. |
| Validation.RegisterBodyGivesLoginBody | VehicleMaintenanceTracker/DTos/RegisterRequest.cs:27-35 | A valid register body gives a valid login body. |
| Validation.ValidChangePasswordConfirms | VehicleMaintenanceTracker/DTos/ChangePasswordRequest.cs:5-17 | A valid change has a confirmation equal to the new password. The new password has at least 6 UTF-16 code units, so at least 3 characters. |
| Validation.MismatchRefused | VehicleMaintenanceTracker/DTos/ChangePasswordRequest.cs:14-16 | A mismatched confirmation is refused. |
| Validation.RegisterBodyGivesProfileBody | VehicleMaintenanceTracker/DTos/ChangePasswordRequest.cs:19-29 | A valid register body's profile fields pass the profile-update checks. |
| Validation.Utf16Length | VehicleMaintenanceTracker/DTos/RegisterRequest.cs:8 | A string measures between one and two UTF-16 code units per character. |
| Validation.Utf16LengthAppend | VehicleMaintenanceTracker/DTos/RegisterRequest.cs:8 | The length of a concatenation is the sum of the lengths of its parts. |
| Validation.Utf16LengthIsCountOnlyInPlaneZero | VehicleMaintenanceTracker/DTos/RegisterRequest.cs:16-18 | The code-unit length equals the character count exactly when every character is in the Basic Multilingual Plane. |
| Collation.TrailingSpacesIgnored | VehicleMaintenanceTracker/Services/UserService.cs:21 | The database's `=` treats a string followed by any run of spaces as equal to the string itself. |
| Collation.CaseIgnored | VehicleMaintenanceTracker/Services/UserService.cs:54 | The database's `=` treats two strings that differ only in the case of their letters as equal. |

## Left out

- Token handling is not modelled. This covers JWT issuance and validation, claim parsing, and the token in the login and register answers. The caller is an input.
- BCrypt is not modelled. Hashing, salting and verification are the `Crypto` parameter.
- Program.cs is not modelled. This covers service wiring, CORS, Swagger and the admin seeded at startup.
- The persistence layer is not modelled: EF Core, SQL Server, async execution and the saves themselves. A booking saves three times, and the model does not claim that the three writes are atomic. Its success path is one transition, and every rejection happens before any write.
- The clock is not modelled. `DateTime.Now` and `DateTime.UtcNow` become a `now` parameter, and the difference between the two is not kept.
- Costs are carried as values with no arithmetic. Date strings ("yyyy-MM-dd HH:mm:ss"), HTTP status codes, message texts and the exact response shapes are left out. The `Error` datatype keeps only the reason.
- Listings with no ordering in the source are maps keyed by id.
- `[EmailAddress]` format checking is a framework heuristic and is not modelled.
- Users.Register: the email comparison models the database's `=` under SQL Server's default collation, SQL_Latin1_General_CP1_CI_AS. The database's collation is not set in the source. Case pairs outside Latin-1, and the collation's other equivalences, are not modelled.
- Users.Login: its lookup uses the same comparison as `Users.Register`, with the same limits.
- Admin.GetDashboardSummary: its "Pending" comparison uses the same comparison as `Users.Register`, with the same limits.
- Null request bodies are not modelled. The controllers' own null-body checks cannot fire, because the framework refuses a missing body before the action runs.
- Integers are unbounded. The 32-bit `int` columns and identity counters can overflow in the source, but that is not modelled.
- The class definitions of `VehicleDto`, `MaintenanceServiceDto`, `UpdateVehicleDto`, `UpdateVehicleStatusDto` and `UpdateMaintenanceStatusDto` are not part of this model. Their fields are taken from how the controllers use them. Their string fields are nullable and carry no checks, so a null reaches the code or the database; `UpdateMaintenanceStatusDto`'s status included.
- The project file is not part of this model. Nullable reference types are taken to be enabled, as `string?` on `MaintenanceRequest.AdminNotes` and the NOT NULL columns of unannotated strings in the initial migration show. So the framework refuses a body whose non-nullable string is null, empty or blank before the action runs. This is modelled for the body classes in the source: `RegisterRequest`, `ChangeRoleRequest`, `UpdateMaintenanceRequest`, `MaintenanceServiceRequest` and `UpdateAdminNoteDto`.
- The account endpoints that take `RegisterRequest`, `LoginRequest`, `ChangePasswordRequest` and `UpdateProfileRequest` are not part of this model. Their checks are the `Validation` predicates. The account service itself does not re-check the bodies, so `Users.Register`, `Users.Login`, `Users.UpdateProfile` and `Users.ChangePassword` accept any body and model what happens to nulls.
- The admin controller's `GetAllServices` returns the catalog entities. It is `Catalog.GetAllServices` behind the admin gate instead of `[Authorize]`.
- The Users table in the initial migration has no `CreatedAt` or `LastLogin` column, but the entity class has both. The model keeps both fields, as the service reads and writes them.
- The `OwnerRemove` migration makes `AdminNotes` nullable, so notes are `Option<string>`. Its dropping of `OwnerName` leaves nothing to model.
- `OdometerReadings.ReadingRow` keeps the reading id, which the response does not carry, so that rows can be related to the store.
- Schema.DeleteVehicle, Schema.DeleteUser, Schema.DeleteReading, Schema.DeleteRequest: no endpoint deletes these rows. They state the schema's delete rules for whoever does. A missing row is reported as not found rather than as zero rows affected.
