/** The `Home` page's account state: the one stored mock account
    (`mockUser`, mirrored in `localStorage`), the signed-in account
    (`currentUser`) and `isAuthenticated`, and the handlers that change
    them. Accounts here have the page's own record shape, keyed by
    `username`, with a `{ filename -> key }` map that may be missing. */
module HomePage {
  import opened Wrappers
  import opened JsString
  import MediCryptApp

  datatype MockUser = MockUser(
    username: string,
    passwordHash: string,
    keyFileData: string,
    encryptedFiles: Option<map<string, string>>)

  /** What `localStorage` holds under `mockUserData`: nothing, text that
      does not parse, or an account. */
  datatype StoredData = NoData | Unparsable | Parsed(user: MockUser)

  /** The map of an account, `{}` when it is missing (what a spread of
      `undefined` gives). */
  function Files(user: MockUser): map<string, string> {
    user.encryptedFiles.GetOr(map[])
  }

  /** `{ ...user, encryptedFiles: { ...user.encryptedFiles, [f]: key } }`. */
  function WithFileKey(user: MockUser, originalFilename: string, decryptionKey: string): (updated: MockUser)
    ensures updated.username == user.username && updated.passwordHash == user.passwordHash
    ensures updated.keyFileData == user.keyFileData
    ensures updated.encryptedFiles.Some?
    ensures originalFilename in Files(updated) && Files(updated)[originalFilename] == decryptionKey
    ensures forall f :: f != originalFilename ==>
      (f in Files(updated) <==> f in Files(user))
      && (f in Files(user) ==> Files(updated)[f] == Files(user)[f])
  {
    user.(encryptedFiles := Some(Files(user)[originalFilename := decryptionKey]))
  }

  /** A second key for the same file replaces the first. */
  lemma WithFileKeyOverwrites(user: MockUser, originalFilename: string, k1: string, k2: string)
    ensures WithFileKey(WithFileKey(user, originalFilename, k1), originalFilename, k2)
         == WithFileKey(user, originalFilename, k2)
  {
    var m1 := Files(WithFileKey(WithFileKey(user, originalFilename, k1), originalFilename, k2));
    var m2 := Files(WithFileKey(user, originalFilename, k2));
    assert m1 == m2;
  }

  /** Keys for two different files do not interfere. */
  lemma WithFileKeyCommutes(user: MockUser, f1: string, k1: string, f2: string, k2: string)
    requires f1 != f2
    ensures WithFileKey(WithFileKey(user, f1, k1), f2, k2) == WithFileKey(WithFileKey(user, f2, k2), f1, k1)
  {
    var m1 := Files(WithFileKey(WithFileKey(user, f1, k1), f2, k2));
    var m2 := Files(WithFileKey(WithFileKey(user, f2, k2), f1, k1));
    assert m1 == m2;
  }

  /** `{ ...user, encryptedFiles: user.encryptedFiles || {} }`. */
  function WithFilesDefaulted(user: MockUser): (u: MockUser)
    ensures u.encryptedFiles == Some(Files(user))
    ensures u.username == user.username && u.passwordHash == user.passwordHash
    ensures u.keyFileData == user.keyFileData
  {
    user.(encryptedFiles := Some(Files(user)))
  }

  /** `hashed_${username}_password`. */
  function PasswordHash(username: string): string {
    "hashed_" + username + "_password"
  }

  /** `${username}_medicrypt_key.txt`. */
  function KeyDownloadName(username: string): (name: string)
    ensures EndsWith(name, "_medicrypt_key.txt")
  {
    var name := username + "_medicrypt_key.txt";
    assert name[|username|..] == "_medicrypt_key.txt";
    name
  }

  /** The account `handleRegisterSuccess` saves. */
  function NewUser(username: string, keyFileData: string): (u: MockUser)
    ensures u.username == username && u.keyFileData == keyFileData
    ensures u.passwordHash == "hashed_" + username + "_password"
    ensures u.encryptedFiles == Some(map[])
  {
    MockUser(username, PasswordHash(username), keyFileData, Some(map[]))
  }

  class Home {
    var isAuthenticated: bool
    var currentUser: Option<MockUser>
    var mockUser: Option<MockUser>
    var storage: StoredData
    var isLoading: bool

    /** The page's invariant: signed in exactly when there is a current
        account, and every account held has its map. */
    predicate Valid()
      reads this
    {
      && (isAuthenticated <==> currentUser.Some?)
      && (currentUser.Some? ==> currentUser.value.encryptedFiles.Some?)
      && (mockUser.Some? ==> mockUser.value.encryptedFiles.Some?)
    }

    constructor (stored: StoredData)
      ensures Valid() && isLoading
      ensures !isAuthenticated && currentUser.None? && mockUser.None? && storage == stored
    {
      isAuthenticated := false;
      currentUser := None;
      mockUser := None;
      storage := stored;
      isLoading := true;
    }

    /** The mount effect: an account read from storage gets `{}` when its
        map is missing; text that does not parse is removed. */
    method LoadStoredUser()
      requires Valid()
      modifies this
      ensures Valid() && !isLoading
      ensures old(storage).Parsed? ==> mockUser == Some(WithFilesDefaulted(old(storage).user))
      ensures !old(storage).Parsed? ==> mockUser == old(mockUser)
      ensures storage == (if old(storage).Unparsable? then NoData else old(storage))
      ensures isAuthenticated == old(isAuthenticated) && currentUser == old(currentUser)
    {
      match storage {
        case Parsed(user) =>
          mockUser := Some(WithFilesDefaulted(user));
        case Unparsable =>
          storage := NoData;
        case NoData =>
      }
      isLoading := false;
    }

    /** `getMockUser`. */
    function GetMockUser(): Option<MockUser>
      reads this
    {
      mockUser
    }

    /** `saveMockUser`: the account, or none, in state and in storage. */
    method SaveMockUser(user: Option<MockUser>)
      modifies this
      ensures old(Valid()) && (user.Some? ==> user.value.encryptedFiles.Some?) ==> Valid()
      ensures mockUser == user
      ensures storage == (if user.Some? then Parsed(user.value) else NoData)
      ensures isAuthenticated == old(isAuthenticated) && currentUser == old(currentUser)
      ensures isLoading == old(isLoading)
    {
      if user.Some? {
        storage := Parsed(user.value);
        mockUser := user;
      } else {
        storage := NoData;
        mockUser := None;
      }
    }

    /** `updateUserEncryptedFiles`: the stored account gets the key for the
        file, and the signed-in account follows when its `username` is the
        same (compared exactly). Without a stored account nothing changes.
        Returns the title of the toast shown. */
    method UpdateUserEncryptedFiles(originalFilename: string, decryptionKey: string) returns (title: string)
      requires Valid()
      modifies this
      ensures Valid()
      ensures old(mockUser).None? ==>
        mockUser == old(mockUser) && currentUser == old(currentUser) && storage == old(storage)
        && title == "Error Saving Key"
      ensures old(mockUser).Some? ==>
        var updated := WithFileKey(old(mockUser).value, originalFilename, decryptionKey);
        && mockUser == Some(updated) && storage == Parsed(updated)
        && currentUser == (if old(currentUser).Some? && old(currentUser).value.username == updated.username
                           then Some(updated) else old(currentUser))
        && title == "Encryption Key Saved"
      ensures isAuthenticated == old(isAuthenticated) && isLoading == old(isLoading)
    {
      if mockUser.Some? {
        var updatedUser := WithFileKey(mockUser.value, originalFilename, decryptionKey);
        SaveMockUser(Some(updatedUser));
        if currentUser.Some? && currentUser.value.username == updatedUser.username {
          currentUser := Some(updatedUser);
        }
        title := "Encryption Key Saved";
      } else {
        title := "Error Saving Key";
      }
    }

    /** `handleLoginSuccess`: signs in only when a stored account's
        `username` matches up to case, with its map defaulted to `{}`. */
    method HandleLoginSuccess(username: string) returns (title: string)
      requires Valid()
      modifies this
      ensures Valid()
      ensures old(mockUser).Some? && ToLower(old(mockUser).value.username) == ToLower(username) ==>
        isAuthenticated && currentUser == Some(WithFilesDefaulted(old(mockUser).value))
        && title == "Login Successful"
      ensures !(old(mockUser).Some? && ToLower(old(mockUser).value.username) == ToLower(username)) ==>
        isAuthenticated == old(isAuthenticated) && currentUser == old(currentUser)
        && title == "Login Failed"
      ensures mockUser == old(mockUser) && storage == old(storage) && isLoading == old(isLoading)
    {
      var user := GetMockUser();
      if user.Some? && ToLower(user.value.username) == ToLower(username) {
        isAuthenticated := true;
        currentUser := Some(WithFilesDefaulted(user.value));
        title := "Login Successful";
      } else {
        title := "Login Failed";
      }
    }

    /** `handleRegisterSuccess`, run to its end. `keyText` is what the
        `FileReader` read from the key `Blob` (`None` when it failed) and
        `downloadFails` whether triggering the download threw. An empty or
        unread key saves nothing; a failed download clears the account it
        has just saved. Returns the name the key file is downloaded under,
        if a download was attempted, and the toast's title. */
    method HandleRegisterSuccess(username: string, keyText: Option<string>, downloadFails: bool)
      returns (downloadName: Option<string>, title: string)
      requires Valid()
      modifies this
      ensures Valid()
      ensures (keyText.None? || keyText.value == "") ==>
        mockUser == old(mockUser) && storage == old(storage) && downloadName.None?
        && title == "Registration Failed"
      ensures keyText.Some? && keyText.value != "" && !downloadFails ==>
        mockUser == Some(NewUser(username, keyText.value)) && storage == Parsed(NewUser(username, keyText.value))
        && downloadName == Some(KeyDownloadName(username)) && title == "Registration Successful"
      ensures keyText.Some? && keyText.value != "" && downloadFails ==>
        mockUser.None? && storage == NoData
        && downloadName == Some(KeyDownloadName(username)) && title == "Registration Warning"
      ensures isAuthenticated == old(isAuthenticated) && currentUser == old(currentUser)
      ensures isLoading == old(isLoading)
    {
      if keyText.None? || keyText.value == "" {
        return None, "Registration Failed";
      }
      var newUser := NewUser(username, keyText.value);
      SaveMockUser(Some(newUser));
      downloadName := Some(KeyDownloadName(username));
      if downloadFails {
        title := "Registration Warning";
        SaveMockUser(None);
      } else {
        title := "Registration Successful";
      }
    }

    /** `handleLogout`: signed out; the stored account stays. */
    method HandleLogout()
      requires Valid()
      modifies this
      ensures Valid() && !isAuthenticated && currentUser.None?
      ensures mockUser == old(mockUser) && storage == old(storage) && isLoading == old(isLoading)
    {
      isAuthenticated := false;
      currentUser := None;
    }
  }

  /** The key the app saves through `onUpdateEncryptedFiles` lands in the
      signed-in account's map as the app computes it. */
  lemma SavedKeyMatchesApp(user: MockUser, originalFilename: string, generatedKey: string)
    requires originalFilename != "" && generatedKey != ""
    ensures Files(WithFileKey(user, originalFilename, generatedKey))
         == MediCryptApp.SaveKey(Files(user), originalFilename, generatedKey)
  {
  }
}
