/** The conversion settings (converter/src/config.rs): plain records that the
    mapper and the renderer read. */
module Configuration {
  import opened RustPrim

  datatype ConfigMapping = ConfigMapping(tileRes: u32, zoom: u8)

  /** Unused by the modelled core; kept for the renderer. */
  datatype ConfigStyle = ConfigStyle(roadColor: (u8, u8, u8))

  datatype Config = Config(mapping: ConfigMapping, style: ConfigStyle)
}
