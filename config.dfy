/** The bot's static configuration: sites, selectors, timeouts, popup selectors and browser switches. */
module Config {

  /** A site to process, with its credentials. */
  datatype Site = Site(url: string, username: string, password: string)

  const Sites: seq<Site> := [Site("hrl_here", "username_here", "password_here")]

  /** Browser switches, in declaration order; each is a key and whether it is on. */
  const BrowserConfig: seq<(string, bool)> :=
    [("headless", false), ("disable_gpu", false), ("no_sandbox", false), ("disable_dev_shm", false)]

  // Page selectors.
  const LoginButton := "div[class*='lobby-image']"
  const UsernameField := "input[data-input-name='account']"
  const PasswordField := "input[data-input-name='userpass']"
  const SubmitButton := "div.ui-badge__wrapper button.ui-button.ui-button--primary.ui-button--normal.ui-button--block"
  const MainButton := "div.redpocket-collet-normal"
  const CurrencyValue := "//*[starts-with(@class, '_currency-count_')]"
  const PrizeValue := "div._pocket_r2902_51 div.prize span"
  const PopupBlock := "div.ui-popup.ui-popup--center.safe-area-top.safe-area-bottom.ui-dialog"

  // Timeouts, in seconds.
  const PageLoad: nat := 30
  const ElementWait: nat := 10
  const PopupCheck: nat := 40
  const RetryInterval: nat := 2

  /**
   * The registered popup selectors, in the order they are tried. Each is
   * written as its first two characters and the rest, which keeps the prefix
   * that decides its locator strategy visible to the verifier.
   */
  const PopupSelectors: seq<string> := [
    "i." + "ui-dialog-close-box__icon",
    "i." + "ui-dialog-close-box__icon svg",
    "//" + "div[@class='ui-button__content']//span[text()='Cancelar']",
    "i." + "ui-dialog-close-box__icon[style*='display: inline-flex']"
  ]

  /** The description logged for each popup selector, index for index. */
  const PopupDescriptions: seq<string> :=
    ["Standard popup", "SVG popup", "Cancel button popup", "Inline flex popup"]
}
