/** The installation constants of the script and the hidden-name policy built on them. */
module Config {
  import opened PhpStrings

  /** What the script knows about where it is installed: `__DIR__` (the script's
      directory, called ROOT_DIR) and `basename(__FILE__)`. */
  datatype Config = Config(rootDir: Str, scriptFile: Str) {
    /** An absolute directory without a trailing slash, and a one-segment file name. */
    predicate Valid() {
      |rootDir| >= 2 && rootDir[0] == '/' && rootDir[|rootDir| - 1] != '/'
      && scriptFile != [] && '/' !in scriptFile
    }
  }

  /** STORAGE_NAME: the directory under ROOT_DIR that is exposed over WebDAV. */
  const StorageName: Str := "storage"

  /** STORAGE_PATH: ROOT_DIR, the directory separator, STORAGE_NAME. */
  function StoragePath(cfg: Config): (r: Str)
    ensures StartsWith(r, cfg.rootDir + Slash) && r[|cfg.rootDir| + 1..] == StorageName
  {
    cfg.rootDir + Slash + StorageName
  }

  /** HIDDEN_FILES: the two directory self-references, the web server's access
      file, the credential file and the script itself. */
  function HiddenNames(scriptFile: Str): set<Str> {
    {".", "..", ".htaccess", ".htpasswd", scriptFile}
  }

  /** `isHidden`: an exact, whole-name match against HIDDEN_FILES (`in_array`). A
      name is hidden exactly when it is one of the five, compared as a whole: a name
      that merely contains or extends one of them is visible. */
  predicate IsHidden(name: Str, scriptFile: Str): (b: bool)
    ensures b <==> name == "." || name == ".." || name == ".htaccess" || name == ".htpasswd" || name == scriptFile
  {
    name in HiddenNames(scriptFile)
  }
}
