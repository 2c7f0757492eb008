/** The constants the rotator is compiled with. The directory, the state file
    and the path separator are chosen per target platform by the
    preprocessor; here the platform is an explicit value. */
module Config {

  datatype Platform = Windows | MacOS | Linux

  /** Upper bound on the number of wallpapers one scan keeps. */
  const MaxWallpapers: nat := 1000

  /** Size of every path buffer, terminating NUL included. */
  const MaxPathLen: nat := 512

  /** Length of the rotation period: one day, in seconds. */
  const DaySeconds: int := 86400

  const HourSeconds: int := 3600

  /** The wallpaper directory, with its trailing separator. */
  function WallpaperPath(p: Platform): (dir: string)
    ensures |dir| > 0 && dir[|dir| - 1] == PathSeparator(p)
  {
    match p
    case Windows => "C:\\Wallpapers\\"
    case MacOS => "/Users/Shared/Wallpapers/"
    case Linux => "/home/user/Wallpapers/"
  }

  function StateFile(p: Platform): string {
    WallpaperPath(p) + ".wallpaper_state"
  }

  function PathSeparator(p: Platform): char {
    if p == Windows then '\\' else '/'
  }
}
