/** The fixed pixel geometry of the browser frame that hosts the CAPTCHA
    widget, and the positions derived from it by integer centring and
    vertical stacking. */
module Layout {

  const FullBrowserWidth: int := 502
  const FullBrowserHeight: int := 606
  const ContainerWidth: int := 312
  const ContainerHeight: int := 307
  const TitleWidth: int := 272
  const TitleHeight: int := 42
  const ConfirmWidth: int := 288
  const ConfirmHeight: int := 40
  const ReloadWidth: int := 288
  const ReloadHeight: int := 28
  const CaptchaImageWidth: int := 288
  const CaptchaImageHeight: int := 179

  /** Vertical gap between stacked regions. */
  const StackGap: int := 5

  /** Estimated top of the container; the only position not derived. */
  const ContainerY: int := 150

  /** Left edge of a region of width `inner` centred in one of width
      `outer` starting at `outerX`. Python's `//` floors; Dafny's `/`
      agrees with it for the positive divisor used here. */
  function CentredX(outerX: int, outer: int, inner: int): int {
    outerX + (outer - inner) / 2
  }

  const ContainerX: int := CentredX(0, FullBrowserWidth, ContainerWidth)
  const TitleX: int := CentredX(ContainerX, ContainerWidth, TitleWidth)
  const TitleY: int := ContainerY
  const CaptchaImageX: int := CentredX(ContainerX, ContainerWidth, CaptchaImageWidth)
  const CaptchaImageY: int := TitleY + TitleHeight + StackGap
  const ConfirmX: int := CentredX(ContainerX, ContainerWidth, ConfirmWidth)
  const ConfirmY: int := CaptchaImageY + CaptchaImageHeight + StackGap
  const ReloadX: int := CentredX(ContainerX, ContainerWidth, ReloadWidth)
  const ReloadY: int := ConfirmY + ConfirmHeight + StackGap

  /** One named rectangle of the `ui_layout` block. */
  datatype Region = Region(width: int, height: int, x: int, y: int)

  /** The five regions echoed in every successful response. */
  datatype UiLayout = UiLayout(
    captchaContainer: Region,
    title: Region,
    captchaImage: Region,
    confirmButton: Region,
    reloadButton: Region)

  /** `inner` is horizontally centred in `outer`: its left and right
      margins differ by at most the one pixel lost to floor division. */
  predicate CentredIn(inner: Region, outer: Region) {
    var left := inner.x - outer.x;
    var right := (outer.x + outer.width) - (inner.x + inner.width);
    0 <= left && 0 <= right && 0 <= right - left <= 1
  }

  /** `lower` starts `StackGap` pixels below the bottom of `upper`. */
  predicate StackedBelow(lower: Region, upper: Region) {
    lower.y == upper.y + upper.height + StackGap
  }

  /** The `ui_layout` block of the response. */
  function Ui(): (l: UiLayout)
    ensures CentredIn(l.captchaContainer, Region(FullBrowserWidth, FullBrowserHeight, 0, 0))
    ensures CentredIn(l.title, l.captchaContainer)
    ensures CentredIn(l.captchaImage, l.captchaContainer)
    ensures CentredIn(l.confirmButton, l.captchaContainer)
    ensures CentredIn(l.reloadButton, l.captchaContainer)
    ensures l.title.y == l.captchaContainer.y
    ensures StackedBelow(l.captchaImage, l.title)
    ensures StackedBelow(l.confirmButton, l.captchaImage)
    ensures StackedBelow(l.reloadButton, l.confirmButton)
    ensures l.captchaContainer == Region(312, 307, 95, 150)
    ensures l.title == Region(272, 42, 115, 150)
    ensures l.captchaImage == Region(288, 179, 107, 197)
    ensures l.confirmButton == Region(288, 40, 107, 381)
    ensures l.reloadButton == Region(288, 28, 107, 426)
  {
    UiLayout(
      Region(ContainerWidth, ContainerHeight, ContainerX, ContainerY),
      Region(TitleWidth, TitleHeight, TitleX, TitleY),
      Region(CaptchaImageWidth, CaptchaImageHeight, CaptchaImageX, CaptchaImageY),
      Region(ConfirmWidth, ConfirmHeight, ConfirmX, ConfirmY),
      Region(ReloadWidth, ReloadHeight, ReloadX, ReloadY))
  }

  /** The default CAPTCHA image offset used when the caller gives none. */
  lemma DefaultImageOffset()
    ensures CaptchaImageX == 107 && CaptchaImageY == 197
    ensures 0 <= CaptchaImageX && CaptchaImageX + CaptchaImageWidth <= FullBrowserWidth
    ensures 0 <= CaptchaImageY && CaptchaImageY + CaptchaImageHeight <= FullBrowserHeight
  {
  }
}
