/** The `router` section of the application configuration, read by both the
    routes (for the defaults) and the router (for the fallback pattern and
    the mount path). */
module RouterConfig {

  datatype Config = Config(
    /** Controller used when the pattern names none or the URI is too short. */
    defaultController: string,
    /** Method used when the pattern names none or the URI is too short. */
    defaultMethod: string,
    /** Pattern of the catch-all route appended on every lookup. */
    defaultRoutingPattern: string,
    /** Directory the application is mounted under; removed from the URI. */
    path: string
  )

  /** The values shipped with the framework. */
  const Shipped: Config := Config("controller", "index", "{controller}/{method}/{args}", "Serene")
}
