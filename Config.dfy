/** `lib/config.ts`: the settings of the knowledge base, read from
    `config/settings.json`, with two environment variables taking precedence;
    the shallow merge that `updateConfig` writes back; and the password check.
    The file system is abstracted: what reading the settings file yields is
    a `FileRead`, and whether a write succeeds is a parameter. */
module Config {
  import opened Util

  datatype FileTypes = FileTypes(documents: seq<string>, images: seq<string>)

  /** The `auth` object; `enabled` is `None` when the object has no such
      key. */
  datatype Auth = Auth(enabled: Option<bool>, password: string)

  /** `auth.enabled` read as a condition: `false` and an absent key are both
      falsy. */
  predicate AuthOn(a: Auth)
  {
    a.enabled == Some(true)
  }

  datatype Config = Config(defaultPath: string, supportedFileTypes: FileTypes, auth: Auth)

  /** The settings used, and written to the settings file, when that file
      cannot be read. */
  const DefaultConfig: Config :=
    Config("./public",
           FileTypes([".md", ".markdown", ".pdf"], [".jpg", ".jpeg", ".png", ".gif", ".svg", ".webp"]),
           Auth(Some(true), "knowledge123"))

  /** `KB_DEFAULT_PATH` and `KB_PASSWORD`; `None` when the variable is unset. */
  datatype Env = Env(defaultPath: Option<string>, password: Option<string>)

  /** What reading the settings file gives: nothing (it is missing, cannot be
      read, or is not JSON), a parsed settings object, or a parsed settings
      object without an `auth` key. */
  datatype FileRead =
    | Unreadable
    | Parsed(config: Config)
    | WithoutAuth(defaultPath: string, supportedFileTypes: FileTypes)

  /** `v || fallback` for an environment variable: unset and empty are both
      falsy. */
  function EnvOr(v: Option<string>, fallback: string): string
  {
    if v.Some? && v.value != "" then v.value else fallback
  }

  /** The settings `base` with the environment overrides applied: the spread
      keeps every other field, `auth.enabled` included. */
  function WithEnv(base: Config, env: Env): Config
  {
    base.(defaultPath := EnvOr(env.defaultPath, base.defaultPath),
          auth := base.auth.(password := EnvOr(env.password, base.auth.password)))
  }

  /** The body of `getConfig`'s outer `try`: the file's settings, or, when
      the file cannot be read, the defaults, which are written to the file
      first (a failing write throws). For a file without `auth`, a non-empty
      `KB_PASSWORD` short-circuits the `||`, so `auth.password` is never read
      and the new `auth` holds the password alone; with the variable unset or
      empty, reading `auth.password` throws. */
  function LoadConfig(env: Env, file: FileRead, canWrite: bool): Result<Config>
  {
    match file
    case Parsed(c) => Success(WithEnv(c, env))
    case WithoutAuth(p, types) =>
      if env.password.Some? && env.password.value != "" then
        Success(Config(EnvOr(env.defaultPath, p), types, Auth(None, env.password.value)))
      else Failure("Cannot read properties of undefined (reading 'password')")
    case Unreadable =>
      if canWrite then Success(WithEnv(DefaultConfig, env))
      else Failure("Failed to write the default settings file")
  }

  /** `getConfig`: a failure of the outer `try` gives the defaults with the
      same overrides. */
  function GetConfig(env: Env, file: FileRead, canWrite: bool): Config
  {
    match LoadConfig(env, file, canWrite)
    case Success(c) => c
    case Failure(_) => WithEnv(DefaultConfig, env)
  }

  /** A non-empty environment variable replaces the value from the file;
      otherwise the file's value is kept. Nothing else of the settings is
      touched: `auth.enabled` and the supported file types come from the
      base as they were. */
  lemma WithEnvOverrides(base: Config, env: Env)
    ensures var c := WithEnv(base, env);
            && (env.defaultPath.Some? && env.defaultPath.value != "" ==> c.defaultPath == env.defaultPath.value)
            && (env.defaultPath.None? || env.defaultPath.value == "" ==> c.defaultPath == base.defaultPath)
            && (env.password.Some? && env.password.value != "" ==> c.auth.password == env.password.value)
            && (env.password.None? || env.password.value == "" ==> c.auth.password == base.auth.password)
            && c.auth.enabled == base.auth.enabled
            && c.supportedFileTypes == base.supportedFileTypes
  {
  }

  /** With no variable set (or both empty) the settings are the base's. */
  lemma WithEnvNoOverride(base: Config, env: Env)
    requires env.defaultPath.None? || env.defaultPath.value == ""
    requires env.password.None? || env.password.value == ""
    ensures WithEnv(base, env) == base
  {
  }

  /** Applying the overrides twice is applying them once. */
  lemma WithEnvIdempotent(base: Config, env: Env)
    ensures WithEnv(WithEnv(base, env), env) == WithEnv(base, env)
  {
  }

  /** `getConfig` always yields settings: those of a parsed file with the
      overrides; for a file without `auth` and a non-empty `KB_PASSWORD`, the
      file's path and file types (the path overridden as usual) with an
      `auth` that holds only that password; and otherwise the defaults with
      the overrides, whether the failure was caught by the inner handler
      (unreadable file) or by the outer one (no `auth` and no password
      variable, failed write). */
  lemma GetConfigOutcome(env: Env, file: FileRead, canWrite: bool)
    ensures file.Parsed? ==> GetConfig(env, file, canWrite) == WithEnv(file.config, env)
    ensures file.WithoutAuth? && env.password.Some? && env.password.value != "" ==>
              var c := GetConfig(env, file, canWrite);
              && c.defaultPath == EnvOr(env.defaultPath, file.defaultPath)
              && c.supportedFileTypes == file.supportedFileTypes
              && c.auth == Auth(None, env.password.value)
    ensures file.Unreadable? || (file.WithoutAuth? && (env.password.None? || env.password.value == "")) ==>
              GetConfig(env, file, canWrite) == WithEnv(DefaultConfig, env)
    ensures LoadConfig(env, file, canWrite).Success? ==>
              LoadConfig(env, file, canWrite).value == GetConfig(env, file, canWrite)
  {
  }

  // ---------------------------------------------------------------------
  // `updateConfig`

  /** A `Partial<Config>`: `None` for a key the object does not have. */
  datatype PartialConfig = PartialConfig(defaultPath: Option<string>, supportedFileTypes: Option<FileTypes>,
                                         auth: Option<Auth>)

  const NoChange: PartialConfig := PartialConfig(None, None, None)

  function Pick<T>(v: Option<T>, current: T): T
  {
    if v.Some? then v.value else current
  }

  /** `{ ...current, ...patch }`: a top-level key of the patch replaces the
      whole value, `auth` included. */
  function Merge(current: Config, patch: PartialConfig): Config
  {
    Config(Pick(patch.defaultPath, current.defaultPath),
           Pick(patch.supportedFileTypes, current.supportedFileTypes),
           Pick(patch.auth, current.auth))
  }

  /** `{ ...p, ...q }` on two patches. */
  function Combine(p: PartialConfig, q: PartialConfig): PartialConfig
  {
    PartialConfig(if q.defaultPath.Some? then q.defaultPath else p.defaultPath,
                  if q.supportedFileTypes.Some? then q.supportedFileTypes else p.supportedFileTypes,
                  if q.auth.Some? then q.auth else p.auth)
  }

  /** `updateConfig`: the current settings (as `getConfig` gives them, so
      with the environment overrides applied) merged with the patch, written
      to the settings file and returned. `writeError` is the message of a
      failing write, which is rethrown with a prefix. */
  function UpdateConfig(env: Env, file: FileRead, canWrite: bool, patch: PartialConfig,
                        writeError: Option<string>): Result<Config>
  {
    var updated := Merge(GetConfig(env, file, canWrite), patch);
    if writeError.Some? then Failure("Failed to update config: " + writeError.value) else Success(updated)
  }

  /** The merge is shallow: each key the patch has replaces the current
      value, each key it lacks keeps it. */
  lemma MergeShallow(current: Config, patch: PartialConfig)
    ensures var m := Merge(current, patch);
            && (patch.defaultPath.Some? ==> m.defaultPath == patch.defaultPath.value)
            && (patch.defaultPath.None? ==> m.defaultPath == current.defaultPath)
            && (patch.supportedFileTypes.Some? ==> m.supportedFileTypes == patch.supportedFileTypes.value)
            && (patch.supportedFileTypes.None? ==> m.supportedFileTypes == current.supportedFileTypes)
            && (patch.auth.Some? ==> m.auth == patch.auth.value)
            && (patch.auth.None? ==> m.auth == current.auth)
  {
  }

  /** An empty patch changes nothing, merging a patch twice is merging it
      once, and two merges in a row are one merge with the combined patch. */
  lemma MergeLaws(current: Config, p: PartialConfig, q: PartialConfig)
    ensures Merge(current, NoChange) == current
    ensures Merge(Merge(current, p), p) == Merge(current, p)
    ensures Merge(Merge(current, p), q) == Merge(current, Combine(p, q))
  {
  }

  /** A successful update returns the merged settings; a failed write
      returns the prefixed message and no settings. */
  lemma UpdateConfigOutcome(env: Env, file: FileRead, canWrite: bool, patch: PartialConfig,
                            writeError: Option<string>)
    ensures var r := UpdateConfig(env, file, canWrite, patch, writeError);
            && (writeError.None? <==> r.Success?)
            && (r.Success? ==> r.value == Merge(GetConfig(env, file, canWrite), patch))
            && (r.Failure? ==> r.error == "Failed to update config: " + writeError.value)
  {
  }

  /** The settings written back are those `getConfig` returned, overrides
      included: when `KB_PASSWORD` is set and the patch leaves `auth` alone,
      the environment's password is what goes into the settings file. */
  lemma UpdatePersistsEnvPassword(env: Env, file: FileRead, canWrite: bool, patch: PartialConfig)
    requires env.password.Some? && env.password.value != ""
    requires patch.auth.None?
    ensures var r := UpdateConfig(env, file, canWrite, patch, None);
            r.Success? && r.value.auth.password == env.password.value
  {
  }

  // ---------------------------------------------------------------------
  // `verifyPassword`

  /** `verifyPassword`: `loaded` is what loading the settings gave. */
  function VerifyPassword(password: string, loaded: Result<Config>): bool
  {
    match loaded
    case Failure(_) => false
    case Success(c) => if !AuthOn(c.auth) then true else password == c.auth.password
  }

  /** A password is accepted exactly when the settings were loaded and
      either authentication is disabled or it equals the configured one. */
  lemma VerifyPasswordIff(password: string, loaded: Result<Config>)
    ensures VerifyPassword(password, loaded) <==>
              loaded.Success? && (!AuthOn(loaded.value.auth) || password == loaded.value.auth.password)
  {
  }

  /** Without a settings file and without `KB_PASSWORD`, the default
      password is the one accepted. */
  lemma DefaultPasswordAccepted(password: string, canWrite: bool)
    ensures var loaded := Success(GetConfig(Env(None, None), Unreadable, canWrite));
            VerifyPassword(password, loaded) <==> password == "knowledge123"
  {
  }

  /** With `KB_PASSWORD` set, the file's password no longer opens anything
      unless it happens to be the same, while a file that disables
      authentication, or has no `auth` at all, lets every password through. */
  lemma EnvPasswordWins(password: string, env: Env, file: FileRead, canWrite: bool)
    requires env.password.Some? && env.password.value != ""
    ensures var c := GetConfig(env, file, canWrite);
            VerifyPassword(password, Success(c)) <==> !AuthOn(c.auth) || password == env.password.value
    ensures file.Parsed? && !AuthOn(file.config.auth) ==>
              VerifyPassword(password, Success(GetConfig(env, file, canWrite)))
    ensures file.WithoutAuth? ==> VerifyPassword(password, Success(GetConfig(env, file, canWrite)))
    ensures file.Parsed? && AuthOn(file.config.auth) ==>
              (VerifyPassword(password, Success(GetConfig(env, file, canWrite))) <==> password == env.password.value)
  {
  }

  /** A settings file without `auth` together with `KB_PASSWORD` turns
      authentication off: with `{"defaultPath": "/kb"}` and the variable
      set to "s", the password "x" is accepted. */
  lemma MissingAuthOpensAll(env: Env, canWrite: bool)
    requires env == Env(None, Some("s"))
    ensures var file := WithoutAuth("/kb", DefaultConfig.supportedFileTypes);
            var c := GetConfig(env, file, canWrite);
            && c.defaultPath == "/kb"
            && !AuthOn(c.auth)
            && VerifyPassword("x", Success(c))
  {
  }

  // ---------------------------------------------------------------------
  // `getConfig` as evidently intended

  /** `getConfig` with the default `auth` standing in for a missing one, so
      that the overrides never turn authentication off. */
  function CorrectedGetConfig(env: Env, file: FileRead, canWrite: bool): Config
  {
    match file
    case WithoutAuth(p, types) => WithEnv(Config(p, types, DefaultConfig.auth), env)
    case _ => GetConfig(env, file, canWrite)
  }

  /** Under the corrected `getConfig`, a file without `auth` keeps
      authentication on: exactly the password from `KB_PASSWORD`, or the
      default password when the variable is unset or empty, is accepted;
      every other file gives what `getConfig` gives. */
  lemma CorrectedKeepsAuth(password: string, env: Env, file: FileRead, canWrite: bool)
    ensures file.WithoutAuth? ==>
              var c := CorrectedGetConfig(env, file, canWrite);
              && AuthOn(c.auth)
              && (VerifyPassword(password, Success(c)) <==> password == EnvOr(env.password, "knowledge123"))
              && c.defaultPath == EnvOr(env.defaultPath, file.defaultPath)
    ensures !file.WithoutAuth? ==> CorrectedGetConfig(env, file, canWrite) == GetConfig(env, file, canWrite)
  {
  }
}
