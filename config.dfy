/** The per-module configuration and its defaults. */
module Config {
  import opened Options

  /**
   * One module's section of the configuration; each setting may be absent.
   */
  datatype ModuleConfig = ModuleConfig(enable: Option<bool>, startPage: Option<int>, maxErrorCount: Option<int>)

  /** The section used when the configuration has none for a module. */
  const DefaultModuleConfig: ModuleConfig := ModuleConfig(Some(false), Some(1), Some(3))

  /** The whole configuration: module name to that module's section. */
  type GlobalConfig = map<string, ModuleConfig>

  /** The section a module reads when it is constructed. */
  function ModuleConfigOf(config: GlobalConfig, name: string): (c: ModuleConfig)
    ensures name in config ==> c == config[name]
    ensures name !in config ==> c == DefaultModuleConfig
  {
    if name in config then config[name] else DefaultModuleConfig
  }

  /** `enable`, off unless the section says otherwise. */
  function Enabled(c: ModuleConfig): (on: bool)
    ensures on <==> c.enable == Some(true)
  {
    c.enable.ValueOr(false)
  }

  /** `start_page`, 1 unless the section says otherwise. */
  function StartPage(c: ModuleConfig): (page: int)
    ensures c.startPage.Some? ==> page == c.startPage.value
    ensures c.startPage.None? ==> page == 1
  {
    c.startPage.ValueOr(1)
  }

  /** `max_error_count`, 3 unless the section says otherwise. */
  function MaxErrorCount(c: ModuleConfig): (ceiling: int)
    ensures c.maxErrorCount.Some? ==> ceiling == c.maxErrorCount.value
    ensures c.maxErrorCount.None? ==> ceiling == 3
  {
    c.maxErrorCount.ValueOr(3)
  }

  /**
   * A module without a section, or a section without a setting, is disabled,
   * starts at page 1 and allows 3 consecutive failures.
   */
  lemma MissingSettingsTakeDefaults(config: GlobalConfig, name: string)
    ensures name !in config ==>
      var c := ModuleConfigOf(config, name);
      !Enabled(c) && StartPage(c) == 1 && MaxErrorCount(c) == 3
    ensures name in config ==>
      var c := config[name];
      (c.enable.None? ==> !Enabled(c)) &&
      (c.startPage.None? ==> StartPage(c) == 1) &&
      (c.maxErrorCount.None? ==> MaxErrorCount(c) == 3)
  {
  }
}
