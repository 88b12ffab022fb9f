/** The toast notifications of `showNotification`: the icon chosen for a
    notification type and the border colour of `getNotificationColor`. The
    toast's markup, styles, timers and removal are not modelled. */
module Notification {

  /** The colour table of `getNotificationColor`. */
  const Palette: map<string, string> := map[
    "info" := "#3b82f6",
    "success" := "#10b981",
    "error" := "#dc2626",
    "warning" := "#f59e0b"
  ]

  const Info: string := "info"

  /** The four known types have four different colours. */
  lemma PaletteDistinct()
    ensures forall a, b | a in Palette && b in Palette && a != b :: Palette[a] != Palette[b]
  {
  }

  /** `getNotificationColor(type)`: the table's colour for a known type and
      the `info` colour for any other; the `info` colour thus marks exactly
      the `info` type and the unknown ones. */
  function BorderColor(kind: string): (c: string)
    ensures c in Palette.Values
    ensures kind in Palette ==> c == Palette[kind]
    ensures c == Palette[Info] <==> kind == Info || kind !in Palette
  {
    PaletteDistinct();
    if kind in Palette then Palette[kind] else Palette[Info]
  }

  /** The Font Awesome icon name `showNotification` picks for a type. */
  function IconName(kind: string): string {
    if kind == "success" then "check-circle"
    else if kind == "error" then "exclamation-circle"
    else if kind == "warning" then "exclamation-triangle"
    else "info-circle"
  }

  /** Icon and colour fall back together: a notification gets the `info`
      icon exactly when it gets the `info` colour, and the four known types
      get four different icons. */
  lemma IconAgreesWithColor(kind: string)
    ensures IconName(kind) == IconName(Info) <==> BorderColor(kind) == BorderColor(Info)
    ensures kind in Palette ==> forall other | other in Palette && other != kind :: IconName(other) != IconName(kind)
  {
  }
}
