/** Which paths an undo refuses, and why. */
module Refusals {
  import opened Revert

  lemma {:induction false} ListedManagers()
    ensures "/var/lib/dpkg" in REFUSED_PREFIXES && "/var/lib/rpm" in REFUSED_PREFIXES
    ensures "/var/lib/pacman" in REFUSED_PREFIXES
    ensures "/var/db/xbps" in REFUSED_PREFIXES && "/var/lib/xbps" in REFUSED_PREFIXES
  {
    assert REFUSED_PREFIXES[0] == "/var/lib/dpkg" && REFUSED_PREFIXES[1] == "/var/lib/rpm";
    assert REFUSED_PREFIXES[2] == "/var/lib/pacman";
    assert REFUSED_PREFIXES[3] == "/var/db/xbps" && REFUSED_PREFIXES[4] == "/var/lib/xbps";
  }

  lemma {:induction false} ListedOthers()
    ensures "/nix/store" in REFUSED_PREFIXES && "/proc" in REFUSED_PREFIXES && "/sys" in REFUSED_PREFIXES
    ensures "/dev" in REFUSED_PREFIXES && "/run" in REFUSED_PREFIXES
  {
    assert REFUSED_PREFIXES[5] == "/nix/store" && REFUSED_PREFIXES[6] == "/proc" && REFUSED_PREFIXES[7] == "/sys";
    assert REFUSED_PREFIXES[8] == "/dev" && REFUSED_PREFIXES[9] == "/run";
  }

  lemma {:induction false} NothingElseListed(p: string)
    requires p in REFUSED_PREFIXES
    ensures || p == "/var/lib/dpkg" || p == "/var/lib/rpm" || p == "/var/lib/pacman" || p == "/var/db/xbps"
            || p == "/var/lib/xbps" || p == "/nix/store" || p == "/proc" || p == "/sys" || p == "/dev" || p == "/run"
  {
  }

  /** A path is refused exactly when its text starts with one of ten prefixes, whether or
   *  not the prefix ends at a component, and whatever the spelling.
   */
  lemma {:induction false} RefusedIsTextual(path: string)
    ensures Refused(path).Some? <==>
            || "/var/lib/dpkg" <= path || "/var/lib/rpm" <= path || "/var/lib/pacman" <= path
            || "/var/db/xbps" <= path || "/var/lib/xbps" <= path || "/nix/store" <= path
            || "/proc" <= path || "/sys" <= path || "/dev" <= path || "/run" <= path
  {
    var found := FirstPrefix(REFUSED_PREFIXES, path);
    ListedManagers();
    ListedOthers();
    if found.Some? {
      NothingElseListed(found.value);
    }
  }

  /* ---- Reasons ---- */

  lemma {:induction false} PartAt(s: string, i: nat, sub: string)
    requires i <= |s| && s[i..] == sub
    ensures Contains(s, sub)
  {
  }

  lemma {:induction false} PartIsInside(s: string, sub: string, i: nat)
    requires i < |sub|
    ensures Contains(s, sub) ==> sub[i] in s
  {
    if j :| 0 <= j <= |s| && sub <= s[j..] {
      assert s[j + i] == sub[i];
    }
  }

  lemma {:induction false} NoManagerNamed(s: string)
    requires 'd' !in s || 'k' !in s
    requires 'p' !in s || ('m' !in s && 'b' !in s)
    ensures !NamesPackageManager(s)
  {
    PartIsInside(s, "dpkg", 0);
    PartIsInside(s, "dpkg", 2);
    PartIsInside(s, "rpm", 1);
    PartIsInside(s, "rpm", 2);
    PartIsInside(s, "pacman", 0);
    PartIsInside(s, "pacman", 3);
    PartIsInside(s, "xbps", 1);
    PartIsInside(s, "xbps", 2);
  }

  lemma {:induction false} ManagersNamed(p: string)
    requires p == "/var/lib/dpkg" || p == "/var/lib/rpm" || p == "/var/lib/pacman" || p == "/var/db/xbps"
             || p == "/var/lib/xbps"
    ensures NamesPackageManager(p)
  {
    if p == "/var/lib/dpkg" {
      PartAt(p, 9, "dpkg");
    } else if p == "/var/lib/rpm" {
      PartAt(p, 9, "rpm");
    } else if p == "/var/lib/pacman" {
      PartAt(p, 9, "pacman");
    } else if p == "/var/db/xbps" {
      PartAt(p, 8, "xbps");
    } else {
      PartAt(p, 9, "xbps");
    }
  }

  /** The state of a package manager is refused as such, and the rest as not persistent. */
  lemma {:induction false} RefusalReasons(path: string)
    ensures match Refused(path)
            case None => true
            case Some(PackageManager(p)) =>
              p <= path && (p == "/var/lib/dpkg" || p == "/var/lib/rpm" || p == "/var/lib/pacman"
                            || p == "/var/db/xbps" || p == "/var/lib/xbps")
            case Some(NotPersistent(p)) =>
              p <= path && (p == "/nix/store" || p == "/proc" || p == "/sys" || p == "/dev" || p == "/run")
            case Some(_) => false
  {
    var found := FirstPrefix(REFUSED_PREFIXES, path);
    if found.Some? {
      NothingElseListed(found.value);
      if |found.value| == 4 || found.value == "/proc" || found.value == "/nix/store" {
        NoManagerNamed(found.value);
      } else {
        ManagersNamed(found.value);
      }
    }
  }
}
